/**
 * `glb_to_step` and `main` of the converter: the fallback chain that loads a mesh,
 * always exports `<name>.stl`, repairs it if it can, and then takes exactly one
 * route to STEP — the pythonocc route when it can be imported, otherwise FreeCAD
 * run as a subprocess when a binary is found, otherwise an error.
 *
 * Every outside effect is an input (`Env`); the model says what the code decides.
 */
module Converter {
  import opened Wrappers
  import opened Model
  import opened Repair
  import Paths

  /** What `subprocess.run` on the FreeCAD script gives, and whether the STEP file exists afterwards. */
  datatype FreeCadProcess = ProcessRaised | Exited(code: int, stepExists: bool)

  /** The outside world of one `glb_to_step` call. */
  datatype Env = Env(
    load: Result<Mesh, string>,        // trimesh.load(glb_path), or the message of what it raised
    stlExportError: Option<string>,    // mesh.export(stl_path) raised this message
    repair: RepairEnv,                 // the library calls inside _repair_mesh
    occ: bool,                         // the pythonocc imports succeed
    setupError: Option<string>,        // BRep_Builder, TopoDS_Compound, MakeCompound or BRepBuilderAPI_Sewing raised this
    build: Face -> FaceBuild,          // what the point, polygon, wire and face calls do for this triangle
    finishError: Option<string>,       // sewing.Perform, SewedShape, STEPControl_Writer, Transfer or Write raised this
    writer: WriterStatus,              // the status STEPControl_Writer.Write(step_path) returns
    which: map<string, string>,        // shutil.which: the names on PATH and what they resolve to
    script: string,                    // the path tempfile.mkstemp(suffix='.py') returns
    freecad: FreeCadProcess,           // running FreeCAD on the script
    scriptRemoved: bool)               // os.remove(script) succeeds

  // ---------------------------------------------------------------------------
  // The pythonocc route: one face per triangle, handed to the sewing operation

  predicate InRange(verts: seq<Point>, t: Triangle)
  {
    t.i0 < |verts| && t.i1 < |verts| && t.i2 < |verts|
  }

  /** `verts[tri[0]], verts[tri[1]], verts[tri[2]]`, which raises IndexError at the first index out of range. */
  function FaceOf(verts: seq<Point>, t: Triangle): (r: Result<Face, Error>)
    ensures r.Success? <==> InRange(verts, t)
    ensures r.Failure? ==> r.error.IndexOutOfBounds? && r.error.size == |verts| <= r.error.index
  {
    if t.i0 >= |verts| then Failure(IndexOutOfBounds(t.i0, |verts|))
    else if t.i1 >= |verts| then Failure(IndexOutOfBounds(t.i1, |verts|))
    else if t.i2 >= |verts| then Failure(IndexOutOfBounds(t.i2, |verts|))
    else Success(Face(verts[t.i0], verts[t.i1], verts[t.i2]))
  }

  /** A triangle the loop gets past: its indices are in range and no call outside the `try` raises. */
  predicate Sewable(verts: seq<Point>, t: Triangle, build: Face -> FaceBuild)
  {
    InRange(verts, t) && !build(FaceOf(verts, t).value).Raised?
  }

  /** The exception a triangle the loop cannot get past raises: the IndexError first, else the OCC call's. */
  function TriangleError(verts: seq<Point>, t: Triangle, build: Face -> FaceBuild): (e: Error)
    requires !Sewable(verts, t, build)
    ensures e.IndexOutOfBounds? <==> !InRange(verts, t)
    ensures e.OccFailed? <==> InRange(verts, t)
  {
    match FaceOf(verts, t)
    case Failure(e) => e
    case Success(f) => OccFailed(build(f).message)
  }

  /**
   * The faces the `for tri in faces` loop adds to the sewing operation, or the exception that
   * stops it: a triangle whose wire or face cannot be built is skipped.
   */
  function SewnFaces(verts: seq<Point>, tris: seq<Triangle>, build: Face -> FaceBuild): (r: Result<seq<Face>, Error>)
    ensures r.Success? <==> forall k | 0 <= k < |tris| :: Sewable(verts, tris[k], build)
    ensures r.Success? ==> |r.value| <= |tris|
    ensures r.Success? ==> forall j | 0 <= j < |r.value| :: build(r.value[j]).Built?
    ensures r.Failure? ==> (r.error.IndexOutOfBounds? && r.error.size == |verts|) || r.error.OccFailed?
    decreases |tris|
  {
    if tris == [] then Success([])
    else
      var n := |tris| - 1;
      assert forall k | 0 <= k < n :: tris[..n][k] == tris[k];
      match SewnFaces(verts, tris[..n], build)
      case Failure(e) => Failure(e)
      case Success(done) =>
        match FaceOf(verts, tris[n])
        case Failure(e) => Failure(e)
        case Success(f) =>
          match build(f)
          case Raised(m) => Failure(OccFailed(m))
          case Built => Success(done + [f])
          case Skipped => Success(done)
  }

  /** The triangle loop of `glb_to_step`, accumulating the faces handed to `sewing.Add`. */
  method SewTriangles(verts: seq<Point>, tris: seq<Triangle>, build: Face -> FaceBuild) returns (r: Result<seq<Face>, Error>)
    ensures r == SewnFaces(verts, tris, build)
  {
    var sewing: seq<Face> := [];
    for i := 0 to |tris|
      invariant SewnFaces(verts, tris[..i], build) == Success(sewing)
    {
      var tri := tris[i];
      assert tris[..i + 1][..i] == tris[..i];
      var face := FaceOf(verts, tri);
      if face.Failure? {
        SewnFailureSticks(verts, tris, build, i + 1);
        return Failure(face.error);
      }
      var made := build(face.value);
      if made.Raised? {
        SewnFailureSticks(verts, tris, build, i + 1);
        return Failure(OccFailed(made.message));
      }
      if made.Built? {
        sewing := sewing + [face.value];
      }
    }
    assert tris[..|tris|] == tris;
    return Success(sewing);
  }

  /** Once the loop stops with an error on a prefix, the whole loop stops with that error. */
  lemma SewnFailureSticks(verts: seq<Point>, tris: seq<Triangle>, build: Face -> FaceBuild, n: nat)
    requires n <= |tris| && SewnFaces(verts, tris[..n], build).Failure?
    ensures SewnFaces(verts, tris, build) == SewnFaces(verts, tris[..n], build)
    decreases |tris| - n
  {
    if n < |tris| {
      var m := n + 1;
      assert tris[..m][..n] == tris[..n];
      SewnFailureSticks(verts, tris, build, m);
    } else {
      assert tris[..n] == tris;
    }
  }

  // ---------------------------------------------------------------------------
  // The FreeCAD route

  /** The names `shutil.which` is asked for, in order. */
  const FreeCadNames: seq<string> := ["FreeCADCmd", "freecadcmd", "freecad"]

  predicate Resolves(which: map<string, string>, name: string)
  {
    name in which && which[name] != ""
  }

  /** `shutil.which("FreeCADCmd") or shutil.which("freecadcmd") or shutil.which("freecad")`, when truthy. */
  function FreeCadBinary(which: map<string, string>): (r: Option<string>)
    ensures r.Some? <==> exists k | 0 <= k < |FreeCadNames| :: Resolves(which, FreeCadNames[k])
    ensures r.Some? ==> exists k | 0 <= k < |FreeCadNames| ::
      Resolves(which, FreeCadNames[k]) && r.value == which[FreeCadNames[k]]
      && forall j | 0 <= j < k :: !Resolves(which, FreeCadNames[j])
  {
    if Resolves(which, "FreeCADCmd") then
      assert Resolves(which, FreeCadNames[0]);
      Some(which["FreeCADCmd"])
    else if Resolves(which, "freecadcmd") then
      assert !Resolves(which, FreeCadNames[0]) && Resolves(which, FreeCadNames[1]);
      Some(which["freecadcmd"])
    else if Resolves(which, "freecad") then
      assert !Resolves(which, FreeCadNames[0]) && !Resolves(which, FreeCadNames[1]) && Resolves(which, FreeCadNames[2]);
      Some(which["freecad"])
    else
      assert forall k | 0 <= k < |FreeCadNames| :: !Resolves(which, FreeCadNames[k]);
      None
  }

  /** The subprocess exited with status 0 and the STEP file exists. */
  predicate Converted(proc: FreeCadProcess)
  {
    proc == Exited(0, true)
  }

  predicate ProducedStep(proc: FreeCadProcess)
  {
    proc.Exited? && proc.stepExists
  }

  // ---------------------------------------------------------------------------
  // The chain, stage by stage

  /** The result of one call and what it did, in order. */
  datatype Run = Run(result: Result<string, Error>, trace: seq<Event>)

  /** The state reached once the STL is exported and repaired: ready to take a route. */
  datatype Prepared = Prepared(stepPath: string, mesh: Mesh, stlPath: string, repaired: Repaired)

  datatype Stage = Stopped(run: Run) | Ready(prepared: Prepared)

  /** The STEP path: the one given, or the input with its suffix replaced by ".step". */
  function StepTarget(glbPath: string, stepArg: Option<string>): (r: Result<string, Error>)
    ensures stepArg.Some? ==> r == Success(stepArg.value)
    ensures r.Success? <==> stepArg.Some? || Paths.Name(Paths.Parse(glbPath)) != ""
    ensures r.Failure? ==> r.error.PathError?
  {
    SuffixesValid();
    match stepArg
    case Some(s) => Success(s)
    case None =>
      match Paths.ReplaceSuffix(glbPath, StepSuffix)
      case Success(s) => Success(s)
      case Failure(e) => Failure(PathError(e))
  }

  /** Start -> load (reject an empty mesh) -> export the STL -> repair it. */
  function Prepare(glbPath: string, stepArg: Option<string>, env: Env): (r: Stage)
    ensures r.Stopped? ==> r.run.result.Failure?
    ensures r.Ready? ==> StepTarget(glbPath, stepArg) == Success(r.prepared.stepPath)
  {
    match StepTarget(glbPath, stepArg)
    case Failure(e) => Stopped(Run(Failure(e), []))
    case Success(step) => Exported(glbPath, step, env)
  }

  /** The stages after the STEP path is known. */
  function Exported(glbPath: string, step: string, env: Env): (r: Stage)
    ensures r.Stopped? ==> r.run.result.Failure?
    ensures r.Ready? ==>
      r.prepared.stepPath == step && env.load == Success(r.prepared.mesh) && !r.prepared.mesh.isEmpty
      && Paths.ReplaceSuffix(glbPath, StlSuffix) == Success(r.prepared.stlPath) && env.stlExportError.None?
      && RepairSpec(r.prepared.stlPath, env.repair) == Success(r.prepared.repaired)
  {
    match env.load
    case Failure(m) => Stopped(Run(Failure(LoadFailed(m)), []))
    case Success(mesh) =>
      if mesh.isEmpty then Stopped(Run(Failure(EmptyMesh(glbPath)), []))
      else
        match Paths.ReplaceSuffix(glbPath, StlSuffix)
        case Failure(e) => Stopped(Run(Failure(PathError(e)), []))
        case Success(stl) =>
          if env.stlExportError.Some? then Stopped(Run(Failure(ExportFailed(env.stlExportError.value)), []))
          else
            match RepairSpec(stl, env.repair)
            case Failure(e) => Stopped(Run(Failure(PathError(e)), [ExportStl(stl)]))
            case Success(rep) => Ready(Prepared(step, mesh, stl, rep))
  }

  /** What the first stages did: the STL export, then the repair. */
  function PreparedTrace(p: Prepared): seq<Event>
  {
    [ExportStl(p.stlPath)] + p.repaired.events
  }

  /** The STL the routes work from: the repaired one when repair wrote one, else the exported one. */
  function StlInUse(p: Prepared): string
  {
    p.repaired.path
  }

  /**
   * The pythonocc route: set up the kernel objects, add the faces, sew them and write the
   * STEP file; an exception of a call outside a `try` ends the route, and the writer's
   * status decides the rest.
   */
  function OccRoute(p: Prepared, env: Env): (r: Run)
    ensures forall k | 0 <= k < |r.trace| :: r.trace[k].Sew? || r.trace[k] == WriteStep(p.stepPath, env.writer)
    ensures r.result.Success? <==>
      env.setupError.None? && SewnFaces(p.mesh.vertices, p.mesh.faces, env.build).Success?
      && env.finishError.None? && env.writer == RetDone
    ensures r.result.Success? ==> r.result.value == p.stepPath
    ensures r.result.Failure? ==>
      r.result.error.OccFailed? || r.result.error.IndexOutOfBounds? || r.result.error.WriterFailed?
  {
    if env.setupError.Some? then Run(Failure(OccFailed(env.setupError.value)), [])
    else
      match SewnFaces(p.mesh.vertices, p.mesh.faces, env.build)
      case Failure(e) => Run(Failure(e), [])
      case Success(faces) =>
        if env.finishError.Some? then Run(Failure(OccFailed(env.finishError.value)), [Sew(faces)])
        else
          Run(if env.writer == RetDone then Success(p.stepPath) else Failure(WriterFailed(env.writer)),
              [Sew(faces), WriteStep(p.stepPath, env.writer)])
  }

  /**
   * The FreeCAD route: write a script that imports the STL in use and exports the STEP
   * file, run the first FreeCAD binary on the `PATH`, and remove the script after a success.
   */
  function FreeCadRoute(p: Prepared, env: Env): (r: Run)
    ensures forall k | 0 <= k < |r.trace| :: !r.trace[k].Sew? && !r.trace[k].WriteStep?
    ensures r.result.Success? <==> FreeCadBinary(env.which).Some? && Converted(env.freecad)
    ensures r.result.Success? ==> r.result.value == p.stepPath
    ensures r.result.Failure? ==>
      (r.result.error.NoConverter? || r.result.error.FreeCadFailed?) && r.result.error.stlPath == StlInUse(p)
  {
    match FreeCadBinary(env.which)
    case None => Run(Failure(NoConverter(StlInUse(p))), [])
    case Some(bin) =>
      var ran := [WriteScript(env.script, StlInUse(p), p.stepPath),
                  RunFreeCad(bin, env.script, p.stepPath, ProducedStep(env.freecad))];
      if Converted(env.freecad)
      then Run(Success(p.stepPath), ran + (if env.scriptRemoved then [RemoveScript(env.script)] else []))
      else Run(Failure(FreeCadFailed(StlInUse(p))), ran)
  }

  /** The route taken once prepared: pythonocc when importable, otherwise FreeCAD. */
  function RouteOf(p: Prepared, env: Env): (r: Run)
    ensures r.result.Success? ==> r.result.value == p.stepPath
    ensures env.occ ==> forall k | 0 <= k < |r.trace| :: !r.trace[k].WriteScript? && !r.trace[k].RunFreeCad? && !r.trace[k].RemoveScript?
    ensures !env.occ ==> forall k | 0 <= k < |r.trace| :: !r.trace[k].Sew? && !r.trace[k].WriteStep?
  {
    if env.occ then OccRoute(p, env) else FreeCadRoute(p, env)
  }

  /** A prepared conversion: the route's result, after the first stages' events and the route's. */
  function Routed(p: Prepared, env: Env): (r: Run)
    ensures r.result.Success? ==> r.result.value == p.stepPath
    ensures r.trace != [] && r.trace[0] == ExportStl(p.stlPath)
  {
    Run(RouteOf(p, env).result, PreparedTrace(p) + RouteOf(p, env).trace)
  }

  /**
   * The specification of `glb_to_step(glb_path, step_path)`: a success returns the STEP
   * target, and no call succeeds without having written something.
   */
  function Conversion(glbPath: string, stepArg: Option<string>, env: Env): (r: Run)
    ensures r.result.Success? ==> StepTarget(glbPath, stepArg) == Success(r.result.value)
    ensures r.trace == [] ==> r.result.Failure?
  {
    match Prepare(glbPath, stepArg, env)
    case Stopped(run) => run
    case Ready(p) => Routed(p, env)
  }

  /** `glb_to_step`, as the code runs it: `step_path` and `stl_path` are rebound on the way. */
  method GlbToStep(glbPath: string, stepArg: Option<string>, env: Env) returns (r: Result<string, Error>, trace: seq<Event>)
    ensures Run(r, trace) == Conversion(glbPath, stepArg, env)
  {
    var stepPath: string;
    if stepArg.None? {
      var derived := Paths.ReplaceSuffix(glbPath, StepSuffix);
      if derived.Failure? {
        return Failure(PathError(derived.error)), [];
      }
      stepPath := derived.value;
    } else {
      stepPath := stepArg.value;
    }
    assert StepTarget(glbPath, stepArg) == Success(stepPath);

    var stage := ExportAndRepair(glbPath, stepPath, env);
    if stage.Stopped? {
      return stage.run.result, stage.run.trace;
    }
    var routeTrace;
    r, routeTrace := TakeRoute(stage.prepared, env);
    trace := PreparedTrace(stage.prepared) + routeTrace;
  }

  /** The part of `glb_to_step` from loading the mesh to repairing the exported STL. */
  method ExportAndRepair(glbPath: string, stepPath: string, env: Env) returns (stage: Stage)
    ensures stage == Exported(glbPath, stepPath, env)
  {
    if env.load.Failure? {
      return Stopped(Run(Failure(LoadFailed(env.load.error)), []));
    }
    var mesh := env.load.value;
    if mesh.isEmpty {
      return Stopped(Run(Failure(EmptyMesh(glbPath)), []));
    }

    var stl := Paths.ReplaceSuffix(glbPath, StlSuffix);
    if stl.Failure? {
      return Stopped(Run(Failure(PathError(stl.error)), []));
    }
    var stlPath := stl.value;
    if env.stlExportError.Some? {
      return Stopped(Run(Failure(ExportFailed(env.stlExportError.value)), []));
    }
    var trace := [ExportStl(stlPath)];

    var repaired := RepairMesh(stlPath, env.repair);
    if repaired.Failure? {
      return Stopped(Run(Failure(PathError(repaired.error)), trace));
    }
    return Ready(Prepared(stepPath, mesh, stlPath, repaired.value));
  }

  /** The part of `glb_to_step` after the repair: the pythonocc route, else the FreeCAD route. */
  method TakeRoute(p: Prepared, env: Env) returns (r: Result<string, Error>, trace: seq<Event>)
    ensures Run(r, trace) == RouteOf(p, env)
  {
    var stepPath := p.stepPath;
    var stlPath := p.stlPath;
    if p.repaired.path != stlPath {
      stlPath := p.repaired.path;
    }
    trace := [];

    if !env.occ {
      var freecadBin := FreeCadBinary(env.which);
      if freecadBin.None? {
        r := Failure(NoConverter(stlPath));
        return;
      }
      var script := env.script;
      trace := trace + [WriteScript(script, stlPath, stepPath)];
      trace := trace + [RunFreeCad(freecadBin.value, script, stepPath, env.freecad.Exited? && env.freecad.stepExists)];
      if env.freecad.Exited? && env.freecad.code == 0 && env.freecad.stepExists {
        if env.scriptRemoved {
          trace := trace + [RemoveScript(script)];
        }
        r := Success(stepPath);
        return;
      }
      r := Failure(FreeCadFailed(stlPath));
      return;
    }

    if env.setupError.Some? {
      r := Failure(OccFailed(env.setupError.value));
      return;
    }
    var faces := SewTriangles(p.mesh.vertices, p.mesh.faces, env.build);
    if faces.Failure? {
      r := Failure(faces.error);
      return;
    }
    trace := trace + [Sew(faces.value)];
    if env.finishError.Some? {
      r := Failure(OccFailed(env.finishError.value));
      return;
    }
    trace := trace + [WriteStep(stepPath, env.writer)];
    if env.writer != RetDone {
      r := Failure(WriterFailed(env.writer));
      return;
    }
    r := Success(stepPath);
  }

  /** The argument `main` passes as the output path: `argv[2]` when present. */
  function OutputArg(argv: seq<string>): (r: Option<string>)
    ensures r.Some? <==> |argv| > 2
    ensures r.Some? ==> r.value == argv[2]
  {
    if |argv| > 2 then Some(argv[2]) else None
  }

  /**
   * `main(argv)`: 2 with fewer than two arguments; otherwise the exit status 0 after
   * a successful conversion, or the exception the conversion lets out.
   */
  function CommandLine(argv: seq<string>, env: Env): (r: Result<int, Error>)
    ensures |argv| < 2 <==> r == Success(2)
    ensures r.Success? ==> r.value == 0 || r.value == 2
    ensures |argv| >= 2 ==>
      (r.Success? <==> Conversion(argv[1], OutputArg(argv), env).result.Success?)
      && (r.Failure? ==> Conversion(argv[1], OutputArg(argv), env).result == Failure(r.error))
  {
    if |argv| < 2 then Success(2)
    else
      match Conversion(argv[1], OutputArg(argv), env).result
      case Success(_) => Success(0)
      case Failure(e) => Failure(e)
  }
}
