/**
 * `_repair_mesh`: best-effort repair of the exported STL. Every library call is an
 * oracle here; what is modelled is which steps run, which of them change the mesh,
 * and which path comes back.
 */
module Repair {
  import opened Wrappers
  import opened Model
  import Paths

  /** What the library calls inside `_repair_mesh` do for this input. */
  datatype RepairEnv = RepairEnv(
    loads: bool,                 // trimesh.load(stl_path) returns a mesh
    watertight: Option<bool>,    // mesh.is_watertight; None when evaluating it raises
    failing: set<RepairStep>,    // the guarded steps that raise (copy + fill_holes count as FillHoles)
    exports: bool)               // mesh.export(repaired_path) returns

  /** The path `_repair_mesh` returns and what it did on the way. */
  datatype Repaired = Repaired(path: string, events: seq<Event>)

  /** The guarded steps that run once the mesh is loaded and its watertightness is known. */
  function Attempted(watertight: bool): seq<RepairStep>
  {
    (if watertight then [] else [FillHoles]) + [FixNormals, RemoveDegenerateFaces, MeshFix]
  }

  /** The steps of `steps` that do not raise, in order: the repairs the exported mesh carries. */
  function Survivors(steps: seq<RepairStep>, failing: set<RepairStep>): (r: seq<RepairStep>)
    ensures |r| <= |steps|
    ensures forall k | 0 <= k < |r| :: r[k] !in failing
    decreases |steps|
  {
    if steps == [] then []
    else (if steps[0] in failing then [] else [steps[0]]) + Survivors(steps[1..], failing)
  }

  /** One TryRepair event per step, in order. */
  function Tries(steps: seq<RepairStep>, failing: set<RepairStep>): (r: seq<Event>)
    ensures |r| == |steps|
    ensures forall k | 0 <= k < |r| :: r[k] == TryRepair(steps[k], steps[k] !in failing)
    decreases |steps|
  {
    if steps == [] then [] else [TryRepair(steps[0], steps[0] !in failing)] + Tries(steps[1..], failing)
  }

  /** The specification of `_repair_mesh(stl_path)`. */
  function RepairSpec(stlPath: string, env: RepairEnv): (r: Result<Repaired, Paths.PathError>)
    ensures r.Failure? ==> env.loads
    ensures r.Success? ==> r.value.path == stlPath || Paths.ReplaceSuffix(stlPath, RepairedSuffix) == Success(r.value.path)
  {
    if !env.loads then Success(Repaired(stlPath, []))
    else
      match Paths.ReplaceSuffix(stlPath, RepairedSuffix)
      case Failure(e) => Failure(e)
      case Success(repairedPath) => Success(RepairLoaded(stlPath, repairedPath, env))
  }

  /** What `_repair_mesh` does once the mesh is loaded and the repaired path is formed. */
  function RepairLoaded(stlPath: string, repairedPath: string, env: RepairEnv): Repaired
  {
    match env.watertight
    case None => Repaired(stlPath, [])
    case Some(w) =>
      var tried := Tries(Attempted(w), env.failing);
      if env.exports
      then Repaired(repairedPath, tried + [WriteRepaired(repairedPath, Survivors(Attempted(w), env.failing))])
      else Repaired(stlPath, tried)
  }

  /** `_repair_mesh`, step by step. */
  method RepairMesh(stlPath: string, env: RepairEnv) returns (r: Result<Repaired, Paths.PathError>)
    ensures r == RepairSpec(stlPath, env)
  {
    if !env.loads {
      return Success(Repaired(stlPath, []));
    }
    var repairedPath := Paths.ReplaceSuffix(stlPath, RepairedSuffix);
    if repairedPath.Failure? {
      return Failure(repairedPath.error);
    }
    if env.watertight.None? {
      return Success(Repaired(stlPath, []));
    }
    var mesh, events := RepairSteps(env.watertight.value, env.failing);
    if !env.exports {
      return Success(Repaired(stlPath, events));
    }
    events := events + [WriteRepaired(repairedPath.value, mesh)];
    return Success(Repaired(repairedPath.value, events));
  }

  /**
   * The guarded steps of `_repair_mesh` on a mesh whose watertightness is known: `mesh` is
   * the list of repairs applied to the loaded mesh so far, `events` what was tried.
   */
  method RepairSteps(watertight: bool, failing: set<RepairStep>) returns (mesh: seq<RepairStep>, events: seq<Event>)
    ensures mesh == Survivors(Attempted(watertight), failing)
    ensures events == Tries(Attempted(watertight), failing)
  {
    mesh := [];
    events := [];
    ghost var done: seq<RepairStep> := [];
    if !watertight {
      mesh, events := Guarded(FillHoles, failing, mesh, events);
      done := [FillHoles];
    }
    assert mesh == Survivors(done, failing) && events == Tries(done, failing);
    mesh, events := Guarded(FixNormals, failing, mesh, events);
    GuardedAdvances(done, FixNormals, failing);
    done := done + [FixNormals];
    mesh, events := Guarded(RemoveDegenerateFaces, failing, mesh, events);
    GuardedAdvances(done, RemoveDegenerateFaces, failing);
    done := done + [RemoveDegenerateFaces];
    mesh, events := Guarded(MeshFix, failing, mesh, events);
    GuardedAdvances(done, MeshFix, failing);
    done := done + [MeshFix];
    assert done == Attempted(watertight);
  }

  /** One `try: <step> except Exception: pass` block: the step is recorded, and is applied to the mesh only if it does not raise. */
  method Guarded(step: RepairStep, failing: set<RepairStep>, mesh: seq<RepairStep>, events: seq<Event>)
    returns (mesh': seq<RepairStep>, events': seq<Event>)
    ensures mesh' == mesh + Survivors([step], failing)
    ensures events' == events + Tries([step], failing)
  {
    events' := events + [TryRepair(step, step !in failing)];
    mesh' := if step in failing then mesh else mesh + [step];
  }

  lemma GuardedAdvances(done: seq<RepairStep>, step: RepairStep, failing: set<RepairStep>)
    ensures Survivors(done + [step], failing) == Survivors(done, failing) + Survivors([step], failing)
    ensures Tries(done + [step], failing) == Tries(done, failing) + Tries([step], failing)
  {
    SurvivorsAppend(done, [step], failing);
    TriesAppend(done, [step], failing);
  }

  lemma {:induction false} TriesAppend(a: seq<RepairStep>, b: seq<RepairStep>, failing: set<RepairStep>)
    ensures Tries(a + b, failing) == Tries(a, failing) + Tries(b, failing)
    decreases |a|
  {
    if a != [] {
      assert (a + b)[1..] == a[1..] + b;
      TriesAppend(a[1..], b, failing);
    } else {
      assert a + b == b;
    }
  }

  lemma {:induction false} SurvivorsAppend(a: seq<RepairStep>, b: seq<RepairStep>, failing: set<RepairStep>)
    ensures Survivors(a + b, failing) == Survivors(a, failing) + Survivors(b, failing)
    decreases |a|
  {
    if a != [] {
      assert (a + b)[0] == a[0];
      assert (a + b)[1..] == a[1..] + b;
      SurvivorsAppend(a[1..], b, failing);
    } else {
      assert a + b == b;
    }
  }

  // ---------------------------------------------------------------------------
  // Properties

  /**
   * `_repair_mesh` hands back its input exactly when loading fails, evaluating
   * watertightness raises or the final export raises; otherwise it hands back the
   * input with its suffix replaced by ".repaired.stl". It raises only if that
   * replacement does.
   */
  lemma RepairReturns(stlPath: string, env: RepairEnv)
    ensures RepairSpec(stlPath, env).Failure?
        <==> env.loads && Paths.ReplaceSuffix(stlPath, RepairedSuffix).Failure?
    ensures RepairSpec(stlPath, env).Success? ==>
      var path := RepairSpec(stlPath, env).value.path;
      (path == stlPath || path == Paths.ReplaceSuffix(stlPath, RepairedSuffix).value)
      && (env.loads && env.watertight.Some? && env.exports
          ==> path == Paths.ReplaceSuffix(stlPath, RepairedSuffix).value)
      && (!(env.loads && env.watertight.Some? && env.exports) ==> path == stlPath)
  {
  }

  /** Called on the STL sibling of a path, `_repair_mesh` never raises. */
  lemma RepairOfSiblingSucceeds(glbPath: string, suffix: string, env: RepairEnv)
    requires Paths.SimpleSuffix(suffix)
    requires Paths.ReplaceSuffix(glbPath, suffix).Success?
    ensures RepairSpec(Paths.ReplaceSuffix(glbPath, suffix).value, env).Success?
  {
    var sibling := Paths.ReplaceSuffix(glbPath, suffix).value;
    SuffixesValid();
    Paths.SiblingParse(glbPath, suffix);
    Paths.ReplaceSuffixSucceeds(sibling, RepairedSuffix, RepairedSuffix);
    RepairReturns(sibling, env);
  }

  /**
   * A failing step does not stop the later ones: whenever the mesh loads and its
   * watertightness is known, the steps tried are the same whatever fails, and each
   * step's outcome is recorded in order.
   */
  lemma FailuresDoNotStopLaterSteps(stlPath: string, env1: RepairEnv, env2: RepairEnv)
    requires env1.loads && env2.loads && env1.watertight.Some? && env1.watertight == env2.watertight
    requires RepairSpec(stlPath, env1).Success?
    ensures RepairSpec(stlPath, env2).Success?
    ensures var n := |Attempted(env1.watertight.value)|;
      var e1 := RepairSpec(stlPath, env1).value.events;
      var e2 := RepairSpec(stlPath, env2).value.events;
      n <= |e1| && n <= |e2|
      && (forall k | 0 <= k < n :: e1[k].TryRepair? && e2[k].TryRepair? && e1[k].step == e2[k].step)
      && (forall k | 0 <= k < n :: e1[k].ok == (e1[k].step !in env1.failing))
  {
  }

  /** Holes are filled only on a mesh that is not watertight; the other three steps always run. */
  lemma FillHolesOnlyWhenOpen(w: bool)
    ensures FillHoles in Attempted(w) <==> !w
    ensures FixNormals in Attempted(w) && RemoveDegenerateFaces in Attempted(w) && MeshFix in Attempted(w)
  {
    if w {
      assert Attempted(w) == [FixNormals, RemoveDegenerateFaces, MeshFix];
    }
  }

  /**
   * When a repaired STL is written, it carries exactly the steps that did not raise,
   * in the order they ran, and it is the last thing `_repair_mesh` does.
   */
  lemma {:induction false} RepairedMeshCarriesSurvivors(steps: seq<RepairStep>, failing: set<RepairStep>, s: RepairStep)
    ensures s in Survivors(steps, failing) <==> s in steps && s !in failing
    decreases |steps|
  {
    if steps != [] {
      RepairedMeshCarriesSurvivors(steps[1..], failing, s);
      assert steps == [steps[0]] + steps[1..];
    }
  }

  /** The repaired file is written last and only when `_repair_mesh` returns its path. */
  lemma RepairWritesOnlyWhatItReturns(stlPath: string, env: RepairEnv)
    requires RepairSpec(stlPath, env).Success?
    ensures var r := RepairSpec(stlPath, env).value;
      (forall k | 0 <= k < |r.events| :: r.events[k].WriteRepaired? ==> k == |r.events| - 1 && r.events[k].path == r.path)
      && (r.path != stlPath ==> r.events != [] && r.events[|r.events| - 1].WriteRepaired?)
  {
    var r := RepairSpec(stlPath, env).value;
    if env.loads && env.watertight.Some? {
      var tried := Tries(Attempted(env.watertight.value), env.failing);
      assert forall k | 0 <= k < |tried| :: tried[k].TryRepair?;
    }
  }
}
