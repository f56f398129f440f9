/**
 * What happens once a conversion is prepared (the STL exported and repaired): the faces
 * the pythonocc route sews, the events of each route, the files they leave on disk and
 * the errors they report.
 */
module RouteProperties {
  import opened Wrappers
  import opened Strings
  import opened Model
  import opened Repair
  import opened Converter

  // ---------------------------------------------------------------------------
  // The faces handed to the sewing operation

  /** The indices of the triangles whose wire and face can be built, in increasing order. */
  function BuiltIndices(verts: seq<Point>, tris: seq<Triangle>, build: Face -> FaceBuild): (r: seq<nat>)
    ensures forall j | 0 <= j < |r| :: r[j] < |tris|
    decreases |tris|
  {
    if tris == [] then []
    else
      var n := |tris| - 1;
      BuiltIndices(verts, tris[..n], build)
        + (if InRange(verts, tris[n]) && build(FaceOf(verts, tris[n]).value).Built? then [n] else [])
  }

  /**
   * When no index is out of range, the sewing operation receives exactly one face per
   * buildable triangle, in the order of the triangles, and nothing else.
   */
  lemma SewnFacesAreBuiltTriangles(verts: seq<Point>, tris: seq<Triangle>, build: Face -> FaceBuild)
    requires SewnFaces(verts, tris, build).Success?
    ensures var fs := SewnFaces(verts, tris, build).value;
      var idx := BuiltIndices(verts, tris, build);
      |fs| == |idx|
      && (forall j | 0 <= j < |idx| :: fs[j] == FaceOf(verts, tris[idx[j]]).value)
      && (forall i, j | 0 <= i < j < |idx| :: idx[i] < idx[j])
      && (forall k | 0 <= k < |tris| :: k in idx <==> build(FaceOf(verts, tris[k]).value).Built?)
  {
    SewnFacesFollowIndices(verts, tris, build);
    BuiltIndicesExact(verts, tris, build);
  }

  /** The i-th sewn face is the face of the i-th buildable triangle. */
  lemma {:induction false} SewnFacesFollowIndices(verts: seq<Point>, tris: seq<Triangle>, build: Face -> FaceBuild)
    requires SewnFaces(verts, tris, build).Success?
    ensures var fs := SewnFaces(verts, tris, build).value;
      var idx := BuiltIndices(verts, tris, build);
      |fs| == |idx| && forall j | 0 <= j < |idx| :: fs[j] == FaceOf(verts, tris[idx[j]]).value
    decreases |tris|
  {
    if tris != [] {
      var n := |tris| - 1;
      var pre := tris[..n];
      SewnLast(verts, tris, build);
      SewnFacesFollowIndices(verts, pre, build);
      var fs0 := SewnFaces(verts, pre, build).value;
      var fs := SewnFaces(verts, tris, build).value;
      var idx0 := BuiltIndices(verts, pre, build);
      var idx := BuiltIndices(verts, tris, build);
      var last := FaceOf(verts, tris[n]).value;
      assert idx == idx0 + (if build(last).Built? then [n] else []);
      forall j | 0 <= j < |idx|
        ensures fs[j] == FaceOf(verts, tris[idx[j]]).value
      {
        if j < |idx0| {
          assert fs[j] == fs0[j] && idx[j] == idx0[j] && tris[idx0[j]] == pre[idx0[j]];
        }
      }
    }
  }

  /** The buildable triangles' indices are increasing and are exactly the buildable ones. */
  lemma BuiltIndicesExact(verts: seq<Point>, tris: seq<Triangle>, build: Face -> FaceBuild)
    requires forall k | 0 <= k < |tris| :: InRange(verts, tris[k])
    ensures var idx := BuiltIndices(verts, tris, build);
      (forall i, j | 0 <= i < j < |idx| :: idx[i] < idx[j])
      && (forall k | 0 <= k < |tris| :: k in idx <==> build(FaceOf(verts, tris[k]).value).Built?)
  {
    BuiltIndicesAscending(verts, tris, build);
    BuiltIndicesMembers(verts, tris, build);
  }

  /** Each index is larger than the ones before it. */
  predicate Increasing(s: seq<nat>)
  {
    forall i, j | 0 <= i < j < |s| :: s[i] < s[j]
  }

  lemma {:induction false} BuiltIndicesAscending(verts: seq<Point>, tris: seq<Triangle>, build: Face -> FaceBuild)
    ensures Increasing(BuiltIndices(verts, tris, build))
    decreases |tris|
  {
    if tris != [] {
      var n := |tris| - 1;
      var idx0 := BuiltIndices(verts, tris[..n], build);
      BuiltIndicesAscending(verts, tris[..n], build);
      assert Increasing(idx0);
      var idx := BuiltIndices(verts, tris, build);
      if idx != idx0 {
        assert idx == idx0 + [n];
        forall i, j | 0 <= i < j < |idx| ensures idx[i] < idx[j] {
          if j < |idx0| {
            assert idx[i] == idx0[i] && idx[j] == idx0[j];
          } else {
            assert idx[i] == idx0[i] < n;
          }
        }
      }
    }
  }

  lemma {:induction false} BuiltIndicesMembers(verts: seq<Point>, tris: seq<Triangle>, build: Face -> FaceBuild)
    requires forall k | 0 <= k < |tris| :: InRange(verts, tris[k])
    ensures var idx := BuiltIndices(verts, tris, build);
      forall k | 0 <= k < |tris| :: k in idx <==> build(FaceOf(verts, tris[k]).value).Built?
    decreases |tris|
  {
    if tris != [] {
      var n := |tris| - 1;
      var pre := tris[..n];
      assert forall k | 0 <= k < n :: pre[k] == tris[k];
      BuiltIndicesMembers(verts, pre, build);
      var idx0 := BuiltIndices(verts, pre, build);
      var idx := BuiltIndices(verts, tris, build);
      assert idx == idx0 + (if build(FaceOf(verts, tris[n]).value).Built? then [n] else []);
      forall k | 0 <= k < |tris|
        ensures k in idx <==> build(FaceOf(verts, tris[k]).value).Built?
      {
        if k < n {
          assert k in idx <==> k in idx0;
        } else {
          assert n !in idx0;
        }
      }
    }
  }

  /**
   * When the loop stops, it stops at the first triangle it cannot get past, with that
   * triangle's exception: all triangles before it are sewable.
   */
  lemma {:induction false} SewnFacesFirstFailure(verts: seq<Point>, tris: seq<Triangle>, build: Face -> FaceBuild)
    requires SewnFaces(verts, tris, build).Failure?
    ensures exists k | 0 <= k < |tris| ::
      (forall j | 0 <= j < k :: Sewable(verts, tris[j], build))
      && !Sewable(verts, tris[k], build)
      && SewnFaces(verts, tris, build).error == TriangleError(verts, tris[k], build)
    decreases |tris|
  {
    var n := |tris| - 1;
    var pre := tris[..n];
    assert forall j | 0 <= j < n :: pre[j] == tris[j];
    if SewnFaces(verts, pre, build).Failure? {
      SewnFacesFirstFailure(verts, pre, build);
      var k :| 0 <= k < |pre| && (forall j | 0 <= j < k :: Sewable(verts, pre[j], build))
        && !Sewable(verts, pre[k], build) && SewnFaces(verts, pre, build).error == TriangleError(verts, pre[k], build);
      assert pre[k] == tris[k];
    } else {
      assert forall j | 0 <= j < n :: Sewable(verts, tris[j], build);
      assert !Sewable(verts, tris[n], build);
    }
  }

  /** One step of the triangle loop: the last triangle's face is added when it builds. */
  lemma SewnLast(verts: seq<Point>, tris: seq<Triangle>, build: Face -> FaceBuild)
    requires tris != [] && SewnFaces(verts, tris, build).Success?
    ensures var n := |tris| - 1;
      SewnFaces(verts, tris[..n], build).Success? && InRange(verts, tris[n])
      && var last := FaceOf(verts, tris[n]).value;
      SewnFaces(verts, tris, build).value
        == SewnFaces(verts, tris[..n], build).value + (if build(last).Built? then [last] else [])
  {
  }

  // ---------------------------------------------------------------------------
  // The events of a prepared conversion

  /**
   * What the repair stage hands on: only repair steps, and at most one final export, of the
   * path it returns; when it returns a new path, that export is its last event.
   */
  predicate RepairShaped(p: Prepared)
  {
    var ev := p.repaired.events;
    (forall k | 0 <= k < |ev| ::
      ev[k].TryRepair? || (ev[k].WriteRepaired? && k == |ev| - 1 && ev[k].path == p.repaired.path))
    && (p.repaired.path != p.stlPath ==> ev != [] && ev[|ev| - 1].WriteRepaired?)
  }

  /** `_repair_mesh` always hands on a repair stage of that shape. */
  lemma RepairIsShaped(p: Prepared, env: RepairEnv)
    requires RepairSpec(p.stlPath, env) == Success(p.repaired)
    ensures RepairShaped(p)
  {
    RepairWritesOnlyWhatItReturns(p.stlPath, env);
    if env.loads && env.watertight.Some? {
      var tried := Tries(Attempted(env.watertight.value), env.failing);
      assert forall k | 0 <= k < |tried| :: tried[k].TryRepair?;
    }
  }

  /** Each event of a prepared conversion: the STL export, a repair event, or an event of the route. */
  lemma RoutedEvent(p: Prepared, env: Env, k: nat)
    requires RepairShaped(p)
    requires k < |Routed(p, env).trace|
    ensures var t := Routed(p, env).trace;
      var n := |PreparedTrace(p)|;
      (k == 0 ==> t[k] == ExportStl(p.stlPath))
      && (0 < k < n ==> t[k].TryRepair? || (t[k].WriteRepaired? && k == n - 1 && t[k].path == StlInUse(p)))
      && (k >= n ==> t[k] == RouteOf(p, env).trace[k - n])
  {
    var n := |PreparedTrace(p)|;
    if 0 < k < n {
      assert Routed(p, env).trace[k] == p.repaired.events[k - 1];
    }
  }

  /**
   * A route fails only with an index error or an OCC exception on the pythonocc route, a
   * writer status, or one of the two FreeCAD errors.
   */
  lemma RoutedErrors(p: Prepared, env: Env)
    ensures var run := Routed(p, env);
      run.result.Failure? ==>
        ((run.result.error.IndexOutOfBounds? || run.result.error.OccFailed? || run.result.error.WriterFailed?) && env.occ)
        || ((run.result.error.FreeCadFailed? || run.result.error.NoConverter?) && !env.occ)
  {
  }

  /**
   * An OCC call outside a `try` that raises ends the pythonocc route with its exception:
   * setting up the kernel objects, making a triangle's points or polygon, or sewing and
   * writing. The STEP writer then reports no status, and FreeCAD is not tried.
   */
  lemma RoutedOccRaises(p: Prepared, env: Env)
    requires RepairShaped(p)
    ensures var run := Routed(p, env);
      var sewn := SewnFaces(p.mesh.vertices, p.mesh.faces, env.build);
      (run.result.Failure? && run.result.error.OccFailed?)
        <==> env.occ && (env.setupError.Some?
                         || (sewn.Failure? && sewn.error.OccFailed?)
                         || (sewn.Success? && env.finishError.Some?))
    ensures var run := Routed(p, env);
      var sewn := SewnFaces(p.mesh.vertices, p.mesh.faces, env.build);
      env.occ ==>
        (env.setupError.Some? ==> run.result == Failure(OccFailed(env.setupError.value)))
        && (env.setupError.None? && sewn.Success? && env.finishError.Some? ==>
              run.result == Failure(OccFailed(env.finishError.value))
              && run.trace[|run.trace| - 1] == Sew(sewn.value))
    ensures var run := Routed(p, env);
      run.result.Failure? && run.result.error.OccFailed? ==>
        forall k | 0 <= k < |run.trace| :: !run.trace[k].WriteStep? && !run.trace[k].RunFreeCad?
  {
    var run := Routed(p, env);
    if run.result.Failure? && run.result.error.OccFailed? {
      forall k | 0 <= k < |run.trace|
        ensures !run.trace[k].WriteStep? && !run.trace[k].RunFreeCad?
      {
        RoutedEvent(p, env, k);
      }
    }
  }

  /** The only removal is the FreeCAD script's, after the FreeCAD route succeeded, as the last event. */
  lemma RoutedRemovals(p: Prepared, env: Env)
    requires RepairShaped(p)
    ensures var run := Routed(p, env);
      forall k | 0 <= k < |run.trace| :: run.trace[k].RemoveScript? ==>
        run.trace[k] == RemoveScript(env.script) && k == |run.trace| - 1
        && !env.occ && run.result.Success? && Converted(env.freecad) && env.scriptRemoved
  {
    var t := Routed(p, env).trace;
    forall k | 0 <= k < |t| && t[k].RemoveScript?
      ensures t[k] == RemoveScript(env.script) && k == |t| - 1
        && !env.occ && Routed(p, env).result.Success? && Converted(env.freecad) && env.scriptRemoved
    {
      RoutedEvent(p, env, k);
    }
  }

  /**
   * The exported STL and the STL in use are on disk at the end, unless the one removal
   * (the script, after a success) is of that very file.
   */
  lemma RoutedKeeps(p: Prepared, env: Env, fs: set<string>, f: string)
    requires RepairShaped(p)
    requires f == p.stlPath || f == StlInUse(p)
    requires Routed(p, env).result.Failure? || f != env.script
    ensures f in FilesAfter(fs, Routed(p, env).trace)
  {
    var t := Routed(p, env).trace;
    RoutedRemovals(p, env);
    assert forall j | 0 <= j < |t| :: !Removes(t[j], f);
    if f == p.stlPath {
      RoutedEvent(p, env, 0);
      FilesAfterWritten(fs, t, 0, f);
    } else {
      var k := |PreparedTrace(p)| - 1;
      RoutedEvent(p, env, k);
      FilesAfterWritten(fs, t, k, f);
    }
  }

  /** Exactly one route: pythonocc's events or FreeCAD's, never both. */
  lemma RoutedOneRoute(p: Prepared, env: Env)
    requires RepairShaped(p)
    ensures var t := Routed(p, env).trace;
      (env.occ ==> forall k | 0 <= k < |t| :: !t[k].WriteScript? && !t[k].RunFreeCad? && !t[k].RemoveScript?)
      && (!env.occ ==> forall k | 0 <= k < |t| :: !t[k].Sew? && !t[k].WriteStep?)
  {
    var t := Routed(p, env).trace;
    forall k | 0 <= k < |t|
      ensures (env.occ ==> !t[k].WriteScript? && !t[k].RunFreeCad? && !t[k].RemoveScript?)
        && (!env.occ ==> !t[k].Sew? && !t[k].WriteStep?)
    {
      RoutedEvent(p, env, k);
    }
  }

  /** The sewn faces come from the loaded mesh; a success ends with the writer reporting RetDone. */
  lemma RoutedSews(p: Prepared, env: Env)
    requires RepairShaped(p)
    ensures var run := Routed(p, env);
      var t := run.trace;
      (forall k | 0 <= k < |t| :: t[k].Sew? ==>
        SewnFaces(p.mesh.vertices, p.mesh.faces, env.build) == Success(t[k].faces))
      && (env.occ && run.result.Success? ==>
        run.result.value == p.stepPath && |t| >= 2
        && t[|t| - 1] == WriteStep(p.stepPath, RetDone) && t[|t| - 2].Sew?)
  {
    var t := Routed(p, env).trace;
    forall k | 0 <= k < |t| && t[k].Sew?
      ensures SewnFaces(p.mesh.vertices, p.mesh.faces, env.build) == Success(t[k].faces)
    {
      RoutedEvent(p, env, k);
    }
  }

  /** The script names the STL in use and the STEP target. */
  lemma RoutedScript(p: Prepared, env: Env)
    requires RepairShaped(p)
    ensures var t := Routed(p, env).trace;
      forall k | 0 <= k < |t| :: t[k].WriteScript? ==> t[k] == WriteScript(env.script, StlInUse(p), p.stepPath)
  {
    var t := Routed(p, env).trace;
    forall k | 0 <= k < |t| && t[k].WriteScript?
      ensures t[k] == WriteScript(env.script, StlInUse(p), p.stepPath)
    {
      RoutedEvent(p, env, k);
    }
  }

  /**
   * The FreeCAD route succeeds exactly when the subprocess exits with 0 and the STEP file
   * exists; otherwise it reports the STL in use, which is on disk, and leaves the script
   * behind. The script is removed only after a success.
   */
  lemma RoutedFreeCad(p: Prepared, env: Env, fs: set<string>)
    requires RepairShaped(p)
    requires !env.occ && FreeCadBinary(env.which).Some?
    ensures var run := Routed(p, env);
      (run.result.Success? <==> Converted(env.freecad))
      && (run.result.Success? ==> run.result.value == p.stepPath)
      && (run.result.Failure? ==>
            run.result.error == FreeCadFailed(StlInUse(p))
            && EndsWith(Message(run.result.error), StlInUse(p))
            && StlInUse(p) in FilesAfter(fs, run.trace)
            && env.script in FilesAfter(fs, run.trace))
      && ((exists k | 0 <= k < |run.trace| :: run.trace[k].RemoveScript?) <==> Converted(env.freecad) && env.scriptRemoved)
  {
    var run := Routed(p, env);
    var n := |PreparedTrace(p)|;
    RoutedRemovals(p, env);
    if run.result.Failure? {
      RoutedKeeps(p, env, fs, StlInUse(p));
      RoutedEvent(p, env, n);
      RoutedEvent(p, env, n + 1);
      assert |run.trace| == n + 2;
      FilesAfterWritten(fs, run.trace, n, env.script);
    }
    if Converted(env.freecad) && env.scriptRemoved {
      RoutedEvent(p, env, |run.trace| - 1);
    }
  }

  /** Without pythonocc and FreeCAD, the route reports the STL in use, which is on disk. */
  lemma RoutedNoConverter(p: Prepared, env: Env, fs: set<string>)
    requires RepairShaped(p)
    ensures var run := Routed(p, env);
      (run.result.Failure? && run.result.error.NoConverter?) <==> !env.occ && FreeCadBinary(env.which).None?
    ensures var run := Routed(p, env);
      run.result.Failure? && run.result.error.NoConverter? ==>
        run.result.error.stlPath == StlInUse(p)
        && EndsWith(Message(run.result.error), StlInUse(p))
        && StlInUse(p) in FilesAfter(fs, run.trace)
  {
    var run := Routed(p, env);
    if run.result.Failure? && run.result.error.NoConverter? {
      RoutedKeeps(p, env, fs, StlInUse(p));
    }
  }

  /**
   * A writer status other than RetDone is the route's error, once the faces are sewn and
   * no OCC call has raised, with no FreeCAD run.
   */
  lemma RoutedWriter(p: Prepared, env: Env)
    requires RepairShaped(p)
    ensures var run := Routed(p, env);
      (run.result.Failure? && run.result.error.WriterFailed?)
        <==> env.occ && env.setupError.None? && SewnFaces(p.mesh.vertices, p.mesh.faces, env.build).Success?
             && env.finishError.None? && env.writer != RetDone
    ensures var run := Routed(p, env);
      run.result.Failure? && run.result.error.WriterFailed? ==>
        run.result.error.status == env.writer
        && run.trace[|run.trace| - 1] == WriteStep(p.stepPath, env.writer)
        && forall k | 0 <= k < |run.trace| :: !run.trace[k].RunFreeCad?
  {
    RoutedOneRoute(p, env);
  }

  /** A prepared success returns the STEP target and leaves it on disk, unless the script is that file. */
  lemma RoutedLeavesStep(p: Prepared, env: Env, fs: set<string>)
    requires RepairShaped(p)
    requires Routed(p, env).result.Success? && env.script != p.stepPath
    ensures Routed(p, env).result.value == p.stepPath
    ensures p.stepPath in FilesAfter(fs, Routed(p, env).trace)
  {
    var t := Routed(p, env).trace;
    var n := |PreparedTrace(p)|;
    RoutedRemovals(p, env);
    var k := if env.occ then |t| - 1 else n + 1;
    RoutedEvent(p, env, k);
    FilesAfterWritten(fs, t, k, p.stepPath);
  }
}
