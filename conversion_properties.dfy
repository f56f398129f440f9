/**
 * What `glb_to_step` promises: where the output goes, that an empty mesh is refused before
 * anything is written, that the intermediate STL is always exported first and left on disk,
 * that exactly one route to STEP is taken, and what each route's failure reports.
 */
module ConversionProperties {
  import opened Wrappers
  import opened Strings
  import opened Model
  import opened Repair
  import opened Converter
  import opened RouteProperties
  import Paths

  /**
   * A conversion either stops in the first stages, having written nothing, or is prepared
   * and then takes its route: everything it went through on the way.
   */
  lemma ConversionShape(glbPath: string, stepArg: Option<string>, env: Env)
    ensures var run := Conversion(glbPath, stepArg, env);
      Prepare(glbPath, stepArg, env).Stopped? ==>
        run == Prepare(glbPath, stepArg, env).run && run.trace == [] && run.result.Failure?
        && (run.result.error.PathError? || run.result.error.LoadFailed?
            || run.result.error.EmptyMesh? || run.result.error.ExportFailed?)
    ensures Prepare(glbPath, stepArg, env).Ready? ==>
      var p := Prepare(glbPath, stepArg, env).prepared;
      StepTarget(glbPath, stepArg) == Success(p.stepPath)
      && env.load == Success(p.mesh) && !p.mesh.isEmpty
      && Paths.ReplaceSuffix(glbPath, StlSuffix) == Success(p.stlPath)
      && env.stlExportError.None?
      && RepairSpec(p.stlPath, env.repair) == Success(p.repaired)
      && RepairShaped(p)
      && Conversion(glbPath, stepArg, env) == Routed(p, env)
  {
    if Prepare(glbPath, stepArg, env).Stopped? {
      StoppedEarly(glbPath, stepArg, env);
    } else {
      var p := Prepare(glbPath, stepArg, env).prepared;
      assert Prepare(glbPath, stepArg, env) == Exported(glbPath, p.stepPath, env);
      RepairIsShaped(p, env.repair);
    }
  }

  /** A conversion that stops in the first stages has written nothing, since the repair of the STL cannot raise. */
  lemma StoppedEarly(glbPath: string, stepArg: Option<string>, env: Env)
    requires Prepare(glbPath, stepArg, env).Stopped?
    ensures var run := Prepare(glbPath, stepArg, env).run;
      run.trace == [] && run.result.Failure?
      && (run.result.error.PathError? || run.result.error.LoadFailed?
          || run.result.error.EmptyMesh? || run.result.error.ExportFailed?)
  {
    SuffixesValid();
    var stl := Paths.ReplaceSuffix(glbPath, StlSuffix);
    if stl.Success? {
      RepairOfSiblingSucceeds(glbPath, StlSuffix, env.repair);
    }
    if StepTarget(glbPath, stepArg).Success? && env.load.Success? && !env.load.value.isEmpty
       && stl.Success? && env.stlExportError.None? {
      assert false;
    }
  }

  // ---------------------------------------------------------------------------
  // The output path

  /**
   * The STEP file is the path given, or by default the input with its suffix replaced
   * by ".step"; when that default cannot be formed, nothing else happens.
   */
  lemma OutputPath(glbPath: string, stepArg: Option<string>, env: Env)
    ensures var run := Conversion(glbPath, stepArg, env);
      (run.result.Success? && stepArg.Some? ==> run.result.value == stepArg.value)
      && (run.result.Success? && stepArg.None? ==> Paths.ReplaceSuffix(glbPath, StepSuffix) == Success(run.result.value))
      && (stepArg.None? && Paths.ReplaceSuffix(glbPath, StepSuffix).Failure? ==>
            run == Run(Failure(PathError(Paths.ReplaceSuffix(glbPath, StepSuffix).error)), []))
  {
    ConversionShape(glbPath, stepArg, env);
  }

  /**
   * Passing the default STEP path explicitly changes nothing: a caller that computes
   * `with_suffix('.step')` itself gets the same conversion as one that passes no output.
   */
  lemma ExplicitDefaultOutput(glbPath: string, env: Env)
    requires Paths.ReplaceSuffix(glbPath, StepSuffix).Success?
    ensures Conversion(glbPath, Some(Paths.ReplaceSuffix(glbPath, StepSuffix).value), env) == Conversion(glbPath, None, env)
  {
    var out := Paths.ReplaceSuffix(glbPath, StepSuffix).value;
    assert StepTarget(glbPath, Some(out)) == StepTarget(glbPath, None);
  }

  /**
   * The default STEP file and the intermediate STL sit side by side: same directory, same
   * stem as the input, and they are never the same file.
   */
  lemma DefaultOutputsAreSiblings(glbPath: string)
    requires Paths.ReplaceSuffix(glbPath, StepSuffix).Success?
    ensures Paths.ReplaceSuffix(glbPath, StlSuffix).Success?
    ensures var step := Paths.Parse(Paths.ReplaceSuffix(glbPath, StepSuffix).value);
      var stl := Paths.Parse(Paths.ReplaceSuffix(glbPath, StlSuffix).value);
      Paths.ParentParts(step) == Paths.ParentParts(stl) == Paths.ParentParts(Paths.Parse(glbPath))
      && Paths.Stem(Paths.Name(step)) == Paths.Stem(Paths.Name(stl)) == Paths.Stem(Paths.Name(Paths.Parse(glbPath)))
      && Paths.ReplaceSuffix(glbPath, StepSuffix).value != Paths.ReplaceSuffix(glbPath, StlSuffix).value
  {
    SuffixesValid();
    Paths.SiblingsShareStem(glbPath, StepSuffix, StlSuffix);
  }

  // ---------------------------------------------------------------------------
  // The first stages

  /**
   * An empty mesh is refused with "Loaded mesh is empty: <glb>" before anything is written,
   * and that error arises in no other way.
   */
  lemma EmptyMeshRefused(glbPath: string, stepArg: Option<string>, env: Env)
    ensures var run := Conversion(glbPath, stepArg, env);
      (run.result.Failure? && run.result.error.EmptyMesh?)
        <==> StepTarget(glbPath, stepArg).Success? && env.load.Success? && env.load.value.isEmpty
    ensures StepTarget(glbPath, stepArg).Success? && env.load.Success? && env.load.value.isEmpty ==>
      Conversion(glbPath, stepArg, env) == Run(Failure(EmptyMesh(glbPath)), [])
  {
    ConversionShape(glbPath, stepArg, env);
    if Prepare(glbPath, stepArg, env).Ready? {
      RoutedErrors(Prepare(glbPath, stepArg, env).prepared, env);
    }
  }

  /**
   * Something is written exactly when the step path is known, the mesh loads and is not
   * empty, the input has a name and the STL export does not raise; the first thing written
   * is always the STL sibling of the input, and from then on the conversion always reaches
   * a route, because repairing that STL cannot raise.
   */
  lemma StlExportedFirst(glbPath: string, stepArg: Option<string>, env: Env)
    ensures var run := Conversion(glbPath, stepArg, env);
      (run.trace != [] <==>
        StepTarget(glbPath, stepArg).Success? && env.load.Success? && !env.load.value.isEmpty
        && Paths.ReplaceSuffix(glbPath, StlSuffix).Success? && env.stlExportError.None?)
      && (run.trace != [] ==>
        run.trace[0] == ExportStl(Paths.ReplaceSuffix(glbPath, StlSuffix).value)
        && Prepare(glbPath, stepArg, env).Ready?)
  {
    ConversionShape(glbPath, stepArg, env);
  }

  /**
   * Once exported, the STL stays on disk: on every failure, and on success too, since the
   * only file ever removed is the ".py" script.
   */
  lemma StlKeptOnDisk(glbPath: string, stepArg: Option<string>, env: Env, fs: set<string>)
    requires Conversion(glbPath, stepArg, env).trace != []
    requires Conversion(glbPath, stepArg, env).result.Failure? || EndsWith(env.script, ".py")
    ensures Paths.ReplaceSuffix(glbPath, StlSuffix).Success?
    ensures Paths.ReplaceSuffix(glbPath, StlSuffix).value in FilesAfter(fs, Conversion(glbPath, stepArg, env).trace)
  {
    ConversionShape(glbPath, stepArg, env);
    var p := Prepare(glbPath, stepArg, env).prepared;
    SuffixesValid();
    Paths.ReplaceSuffixEndsWith(glbPath, StlSuffix);
    if EndsWith(env.script, ".py") {
      EndingsDiffer(env.script, p.stlPath);
    }
    RoutedKeeps(p, env, fs, p.stlPath);
  }

  // ---------------------------------------------------------------------------
  // The routes

  /**
   * Exactly one route is taken: with pythonocc nothing of FreeCAD happens, and without it
   * nothing is sewn or written by the STEP writer.
   */
  lemma OneRouteTaken(glbPath: string, stepArg: Option<string>, env: Env)
    ensures var t := Conversion(glbPath, stepArg, env).trace;
      (env.occ ==> forall k | 0 <= k < |t| :: !t[k].WriteScript? && !t[k].RunFreeCad? && !t[k].RemoveScript?)
      && (!env.occ ==> forall k | 0 <= k < |t| :: !t[k].Sew? && !t[k].WriteStep?)
  {
    ConversionShape(glbPath, stepArg, env);
    if Prepare(glbPath, stepArg, env).Ready? {
      RoutedOneRoute(Prepare(glbPath, stepArg, env).prepared, env);
    }
  }

  /**
   * The pythonocc route builds its faces from the mesh as loaded from the GLB, not from the
   * repaired STL, and a successful run ends with the STEP writer reporting RetDone.
   */
  lemma OccSewsLoadedMesh(glbPath: string, stepArg: Option<string>, env: Env)
    requires env.occ
    ensures var run := Conversion(glbPath, stepArg, env);
      var t := run.trace;
      (forall k | 0 <= k < |t| :: t[k].Sew? ==>
        env.load.Success? && SewnFaces(env.load.value.vertices, env.load.value.faces, env.build) == Success(t[k].faces))
      && (run.result.Success? ==>
        |t| >= 2 && t[|t| - 1] == WriteStep(run.result.value, RetDone) && t[|t| - 2].Sew?)
  {
    ConversionShape(glbPath, stepArg, env);
    if Prepare(glbPath, stepArg, env).Ready? {
      RoutedSews(Prepare(glbPath, stepArg, env).prepared, env);
    }
  }

  /**
   * The FreeCAD script names the STL the repair handed back and the STEP target: the
   * repaired sibling ".repaired.stl" when the repair loaded, measured and exported the mesh,
   * and the plain ".stl" sibling otherwise.
   */
  lemma FreeCadScriptNamesStlInUse(glbPath: string, stepArg: Option<string>, env: Env)
    requires !env.occ
    ensures var t := Conversion(glbPath, stepArg, env).trace;
      forall k | 0 <= k < |t| :: t[k].WriteScript? ==>
        StepTarget(glbPath, stepArg) == Success(t[k].stepPath)
        && Paths.ReplaceSuffix(glbPath, StlSuffix).Success?
        && Paths.ReplaceSuffix(glbPath, RepairedSuffix).Success?
        && t[k].script == env.script
        && (env.repair.loads && env.repair.watertight.Some? && env.repair.exports ==>
              t[k].meshPath == Paths.ReplaceSuffix(glbPath, RepairedSuffix).value)
        && (!(env.repair.loads && env.repair.watertight.Some? && env.repair.exports) ==>
              t[k].meshPath == Paths.ReplaceSuffix(glbPath, StlSuffix).value)
  {
    ConversionShape(glbPath, stepArg, env);
    if Prepare(glbPath, stepArg, env).Ready? {
      var p := Prepare(glbPath, stepArg, env).prepared;
      RoutedScript(p, env);
      RepairReturns(p.stlPath, env.repair);
      SuffixesValid();
      Paths.RenamedSibling(glbPath, StlSuffix, RepairedSuffix);
    }
  }

  /**
   * A STEP writer status other than RetDone is final: it is what the error reports, it
   * arises only on the pythonocc route after the faces were sewn without any OCC call
   * raising, and FreeCAD is not tried.
   */
  lemma WriterFailureIsFinal(glbPath: string, stepArg: Option<string>, env: Env)
    ensures var run := Conversion(glbPath, stepArg, env);
      (run.result.Failure? && run.result.error.WriterFailed?)
        <==> Prepare(glbPath, stepArg, env).Ready? && env.occ && env.setupError.None?
             && SewnFaces(env.load.value.vertices, env.load.value.faces, env.build).Success?
             && env.finishError.None? && env.writer != RetDone
    ensures var run := Conversion(glbPath, stepArg, env);
      run.result.Failure? && run.result.error.WriterFailed? ==>
        run.result.error.status == env.writer
        && run.trace[|run.trace| - 1] == WriteStep(Prepare(glbPath, stepArg, env).prepared.stepPath, env.writer)
        && forall k | 0 <= k < |run.trace| :: !run.trace[k].RunFreeCad?
  {
    ConversionShape(glbPath, stepArg, env);
    if Prepare(glbPath, stepArg, env).Ready? {
      RoutedWriter(Prepare(glbPath, stepArg, env).prepared, env);
    }
  }

  /**
   * An exception of an OCC call outside a `try` escapes once pythonocc is imported: it
   * arises exactly when setting up, making a triangle's points or polygon, or sewing and
   * writing raises; FreeCAD is then not tried, the STEP writer reports nothing, and the
   * exported STL stays on disk.
   */
  lemma OccFailureIsFinal(glbPath: string, stepArg: Option<string>, env: Env, fs: set<string>)
    ensures var run := Conversion(glbPath, stepArg, env);
      (run.result.Failure? && run.result.error.OccFailed?)
        <==> Prepare(glbPath, stepArg, env).Ready? && env.occ
             && var sewn := SewnFaces(env.load.value.vertices, env.load.value.faces, env.build);
             (env.setupError.Some? || (sewn.Failure? && sewn.error.OccFailed?)
              || (sewn.Success? && env.finishError.Some?))
    ensures var run := Conversion(glbPath, stepArg, env);
      run.result.Failure? && run.result.error.OccFailed? ==>
        (forall k | 0 <= k < |run.trace| :: !run.trace[k].WriteStep? && !run.trace[k].RunFreeCad?)
        && Paths.ReplaceSuffix(glbPath, StlSuffix).Success?
        && Paths.ReplaceSuffix(glbPath, StlSuffix).value in FilesAfter(fs, run.trace)
  {
    ConversionShape(glbPath, stepArg, env);
    if Prepare(glbPath, stepArg, env).Ready? {
      var p := Prepare(glbPath, stepArg, env).prepared;
      RoutedOccRaises(p, env);
      if Routed(p, env).result.Failure? {
        RoutedKeeps(p, env, fs, p.stlPath);
      }
    }
  }

  /**
   * Without pythonocc and without a FreeCAD binary the conversion fails with the
   * "pythonocc-core is required" error, whose message ends with the STL in use, and that
   * STL is on disk.
   */
  lemma NoConverterPointsAtStl(glbPath: string, stepArg: Option<string>, env: Env, fs: set<string>)
    ensures var run := Conversion(glbPath, stepArg, env);
      (run.result.Failure? && run.result.error.NoConverter?)
        <==> Prepare(glbPath, stepArg, env).Ready? && !env.occ && FreeCadBinary(env.which).None?
    ensures var run := Conversion(glbPath, stepArg, env);
      run.result.Failure? && run.result.error.NoConverter? ==>
        run.result.error.stlPath == StlInUse(Prepare(glbPath, stepArg, env).prepared)
        && EndsWith(Message(run.result.error), run.result.error.stlPath)
        && run.result.error.stlPath in FilesAfter(fs, run.trace)
  {
    ConversionShape(glbPath, stepArg, env);
    if Prepare(glbPath, stepArg, env).Ready? {
      RoutedNoConverter(Prepare(glbPath, stepArg, env).prepared, env, fs);
    }
  }

  /**
   * With a FreeCAD binary, the conversion succeeds exactly when the subprocess exits with 0
   * and the STEP file exists; every other outcome is the "FreeCAD was detected but
   * conversion failed" error, whose message ends with the STL in use, which is on disk,
   * and leaves the script behind. The script is removed only after a success.
   */
  lemma FreeCadOutcome(glbPath: string, stepArg: Option<string>, env: Env, fs: set<string>)
    requires Prepare(glbPath, stepArg, env).Ready? && !env.occ && FreeCadBinary(env.which).Some?
    ensures var p := Prepare(glbPath, stepArg, env).prepared;
      var run := Conversion(glbPath, stepArg, env);
      (run.result.Success? <==> Converted(env.freecad))
      && (run.result.Success? ==> run.result.value == p.stepPath)
      && (run.result.Failure? ==>
            run.result.error == FreeCadFailed(StlInUse(p))
            && EndsWith(Message(run.result.error), StlInUse(p))
            && StlInUse(p) in FilesAfter(fs, run.trace)
            && env.script in FilesAfter(fs, run.trace))
      && ((exists k | 0 <= k < |run.trace| :: run.trace[k].RemoveScript?) <==> Converted(env.freecad) && env.scriptRemoved)
  {
    ConversionShape(glbPath, stepArg, env);
    RoutedFreeCad(Prepare(glbPath, stepArg, env).prepared, env, fs);
  }

  /**
   * A successful conversion leaves the STEP file on disk, on either route (the script removed
   * after FreeCAD is a different file).
   */
  lemma SuccessLeavesStep(glbPath: string, stepArg: Option<string>, env: Env, fs: set<string>)
    requires Conversion(glbPath, stepArg, env).result.Success?
    requires env.script != Conversion(glbPath, stepArg, env).result.value
    ensures Conversion(glbPath, stepArg, env).result.value in FilesAfter(fs, Conversion(glbPath, stepArg, env).trace)
  {
    ConversionShape(glbPath, stepArg, env);
    var p := Prepare(glbPath, stepArg, env).prepared;
    RoutedLeavesStep(p, env, fs);
  }
}
