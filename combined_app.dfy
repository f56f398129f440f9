/**
 * The decisions the unified web app makes for itself: the sampling presets of the text
 * and image tabs, where the "latest generated GLB" is looked for, and how the GLB -> STEP
 * tab picks its input, calls the converter and falls back to the intermediate STL.
 */
module CombinedApp {
  import opened Wrappers
  import opened Strings
  import opened Model
  import opened Replies
  import Paths
  import Converter
  import opened ConversionProperties

  // ---------------------------------------------------------------------------
  // Sampling presets

  /** The four sampling sliders of a tab: guidance strengths are floats, step counts integers. */
  datatype Sampling = Sampling(ssGuidance: real, ssSteps: int, slatGuidance: real, slatSteps: int)

  /** Guidance sliders run from 0 to 10, step sliders from 1 to 50. */
  predicate OnSliders(s: Sampling)
  {
    0.0 <= s.ssGuidance <= 10.0 && 1 <= s.ssSteps <= 50
    && 0.0 <= s.slatGuidance <= 10.0 && 1 <= s.slatSteps <= 50
  }

  /** Every field of `a` is at most the matching field of `b`. */
  predicate NoMoreThan(a: Sampling, b: Sampling)
  {
    a.ssGuidance <= b.ssGuidance && a.ssSteps <= b.ssSteps
    && a.slatGuidance <= b.slatGuidance && a.slatSteps <= b.slatSteps
  }

  /** The choices of both preset radios; "Balanced" is selected when the page opens. */
  const PresetChoices := ["Fast", "Balanced", "High Quality"]

  /** The values the text tab's sliders start with. */
  const TextDefaults := Sampling(7.5, 25, 7.5, 25)

  /** The values the image tab's sliders start with. */
  const ImageDefaults := Sampling(7.5, 12, 3.0, 12)

  /** `apply_text_preset(preset)`. */
  function TextPreset(preset: string): (r: Sampling)
    ensures OnSliders(r)
    ensures preset != "Fast" && preset != "High Quality" ==> r == TextDefaults
  {
    if preset == "Fast" then Sampling(5.0, 12, 3.0, 8)
    else if preset == "High Quality" then Sampling(9.0, 40, 8.5, 30)
    else Sampling(7.5, 25, 7.5, 25)
  }

  /** `apply_image_preset(preset)`. */
  function ImagePreset(preset: string): (r: Sampling)
    ensures OnSliders(r)
    ensures preset != "Fast" && preset != "High Quality" ==> r == ImageDefaults
  {
    if preset == "Fast" then Sampling(5.0, 12, 3.0, 8)
    else if preset == "High Quality" then Sampling(8.5, 40, 6.0, 30)
    else Sampling(7.5, 12, 3.0, 12)
  }

  /**
   * Choosing "Balanced" leaves each tab as it opened; "Fast" is the same on both tabs; on
   * each tab the presets never lower a value when going from "Fast" to "Balanced" to
   * "High Quality", and the three choices give three different settings.
   */
  lemma PresetsOrdered()
    ensures TextPreset("Balanced") == TextDefaults && ImagePreset("Balanced") == ImageDefaults
    ensures TextPreset("Fast") == ImagePreset("Fast")
    ensures NoMoreThan(TextPreset("Fast"), TextPreset("Balanced"))
    ensures NoMoreThan(TextPreset("Balanced"), TextPreset("High Quality"))
    ensures NoMoreThan(ImagePreset("Fast"), ImagePreset("Balanced"))
    ensures NoMoreThan(ImagePreset("Balanced"), ImagePreset("High Quality"))
    ensures forall i, j | 0 <= i < j < |PresetChoices| ::
      TextPreset(PresetChoices[i]) != TextPreset(PresetChoices[j])
      && ImagePreset(PresetChoices[i]) != ImagePreset(PresetChoices[j])
  {
  }

  // ---------------------------------------------------------------------------
  // The latest generated GLB

  /** The Gradio request: `str(req.session_hash)`, or None when it has no such attribute. */
  datatype Request = Request(sessionHash: Option<string>)

  /** A `sample.glb` found by the recursive scan, with its mtime, or None when `stat` raises. */
  datatype Candidate = Candidate(path: string, mtime: Option<int>)

  /**
   * The generator's temporary directory as the lookup sees it: its path, whether it is a
   * directory, what `rglob('sample.glb')` lists (None when the scan raises), and the
   * files that exist.
   */
  datatype TmpDir = TmpDir(root: string, isDir: bool, scan: Option<seq<Candidate>>, files: set<string>)

  const SampleName := "sample.glb"
  const FoundStatus := "Found latest generated GLB"
  const FoundScannedPrefix := "Found latest generated GLB: "
  const NoSessionGlbStatus := "No generated GLB found for this session"
  const NoGlbStatus := "No generated GLB found"

  /** The session hash, when a request with one is given. */
  function SessionOf(req: Option<Request>): Option<string>
  {
    if req.Some? then req.value.sessionHash else None
  }

  /** `<TMP_DIR>/<session_hash>/sample.glb`, joined as `os.path.join` does. */
  function SessionGlb(root: string, hash: string): string
  {
    Paths.OsJoin(Paths.OsJoin(root, hash), SampleName)
  }

  /** Every candidate could be `stat`-ed. */
  predicate AllStated(c: seq<Candidate>)
  {
    forall k | 0 <= k < |c| :: c[k].mtime.Some?
  }

  /** `c[i]` is what Python's `max(c, key=mtime)` returns: a newest candidate, and the first of them. */
  predicate FirstLatest(c: seq<Candidate>, i: nat)
  {
    i < |c| && AllStated(c)
    && (forall k | 0 <= k < |c| :: c[k].mtime.value <= c[i].mtime.value)
    && (forall k | 0 <= k < i :: c[k].mtime.value < c[i].mtime.value)
  }

  /** There is only one such candidate. */
  lemma FirstLatestUnique(c: seq<Candidate>, i: nat, j: nat)
    requires FirstLatest(c, i) && FirstLatest(c, j)
    ensures i == j
  {
    assert c[i].mtime.value <= c[j].mtime.value && c[j].mtime.value <= c[i].mtime.value;
  }

  /**
   * `max(glbs, key=lambda p: p.stat().st_mtime)` on a non-empty list: the keys are taken in
   * order, a later candidate replaces the best so far only when strictly newer, and the
   * first `stat` that raises ends the call (None).
   */
  method LatestOf(c: seq<Candidate>) returns (i: Option<nat>)
    requires c != []
    ensures i.None? <==> !AllStated(c)
    ensures i.Some? ==> FirstLatest(c, i.value)
  {
    if c[0].mtime.None? {
      return None;
    }
    var best: nat := 0;
    var k := 1;
    while k < |c|
      invariant 1 <= k <= |c| && best < k
      invariant forall j | 0 <= j < k :: c[j].mtime.Some?
      invariant forall j | 0 <= j < k :: c[j].mtime.value <= c[best].mtime.value
      invariant forall j | 0 <= j < best :: c[j].mtime.value < c[best].mtime.value
    {
      if c[k].mtime.None? {
        return None;
      }
      if c[k].mtime.value > c[best].mtime.value {
        best := k;
      }
      k := k + 1;
    }
    return Some(best);
  }

  /**
   * `find_latest_glb(req)`. With a session hash only that session's `sample.glb` is
   * looked at; otherwise the newest `sample.glb` the scan lists is returned, and any
   * exception inside the scan gives "No generated GLB found".
   */
  method FindLatestGlb(req: Option<Request>, dir: TmpDir) returns (r: Reply)
    ensures SessionOf(req).Some? ==>
      var p := SessionGlb(dir.root, SessionOf(req).value);
      (r.file.Some? <==> p in dir.files)
      && (r.file.Some? ==> r.file.value == p && r.status == FoundStatus)
      && (r.file.None? ==> r.status == NoSessionGlbStatus)
    ensures SessionOf(req).None? ==>
      (r.file.Some? <==> dir.isDir && dir.scan.Some? && dir.scan.value != [] && AllStated(dir.scan.value))
      && (r.file.Some? ==>
            (exists i: nat :: FirstLatest(dir.scan.value, i) && r.file.value == dir.scan.value[i].path)
            && r.status == FoundScannedPrefix + r.file.value)
      && (r.file.None? ==> r.status == NoGlbStatus)
  {
    var hash := SessionOf(req);
    if hash.Some? {
      var p := SessionGlb(dir.root, hash.value);
      if p in dir.files {
        return Reply(Some(p), FoundStatus);
      }
      return Reply(None, NoSessionGlbStatus);
    }
    if dir.isDir && dir.scan.Some? && dir.scan.value != [] {
      var glbs := dir.scan.value;
      var latest := LatestOf(glbs);
      if latest.Some? {
        var path := glbs[latest.value].path;
        return Reply(Some(path), FoundScannedPrefix + path);
      }
    }
    return Reply(None, NoGlbStatus);
  }

  /** With a session hash that is a single component, the file looked at is `<TMP_DIR>/<hash>/sample.glb`. */
  lemma SessionGlbPath(root: string, hash: string)
    requires Paths.IsComponent(hash)
    ensures Paths.Parse(SessionGlb(root, hash))
         == Paths.PurePath(Paths.Parse(root).rooted, Paths.Parse(root).parts + [hash, SampleName])
  {
    assert forall k | 0 <= k < |SampleName| :: SampleName[k] != '/';
    assert Paths.IsComponent(SampleName);
    var d := Paths.OsJoin(root, hash);
    var parts := Paths.Parse(root).parts;
    Paths.ParseJoin(root, hash);
    Paths.ParseJoin(d, SampleName);
    assert Paths.Parse(d).parts + [SampleName] == parts + [hash, SampleName];
  }

  // ---------------------------------------------------------------------------
  // The GLB -> STEP tab

  const NoInputStatus := "No GLB provided or found"
  const FallbackPrefix := "STEP conversion failed: "

  /** The input `_convert_file` converts: the upload if there is one, else a non-empty latest path. */
  function ChooseInput(upload: Option<string>, latest: Option<string>): (r: Option<string>)
    ensures r.Some? <==> upload.Some? || (latest.Some? && latest.value != "")
    ensures upload.Some? ==> r == upload
    ensures upload.None? && r.Some? ==> r == latest
  {
    if upload.Some? then upload
    else if latest.Some? && latest.value != "" then latest
    else None
  }

  /** The ".step" sibling, when it can be formed, ends with ".step". */
  lemma StepSiblingIsStep(inp: string)
    requires Paths.ReplaceSuffix(inp, StepSuffix).Success?
    ensures EndsWith(Paths.ReplaceSuffix(inp, StepSuffix).value, StepSuffix)
  {
    SuffixesValid();
    Paths.ReplaceSuffixEndsWith(inp, StepSuffix);
  }

  /**
   * `_convert_file(file_obj, latest_path)`: `upload` is the uploaded file's path, `fs` the
   * files on disk beforehand. The output is the input with suffix ".step", formed before
   * the `try` (so its ValueError escapes); the STL looked for after a failure is the
   * input with suffix ".stl".
   */
  function ConvertFile(upload: Option<string>, latest: Option<string>, env: Converter.Env, fs: set<string>): (r: UiRun)
    ensures r.result.Failure? ==>
      ChooseInput(upload, latest).Some? && Paths.Name(Paths.Parse(ChooseInput(upload, latest).value)) == ""
    ensures (r.result.Success? && r.result.value.file.Some?
             && (env.script != r.result.value.file.value || EndsWith(env.script, ".py"))) ==>
      r.result.value.file.value in FilesAfter(fs, r.trace)
  {
    match ChooseInput(upload, latest)
    case None => UiRun(Success(Reply(None, NoInputStatus)), [])
    case Some(inp) =>
      match Paths.ReplaceSuffix(inp, StepSuffix)
      case Failure(e) => SuffixesValid(); UiRun(Failure(PathError(e)), [])
      case Success(out) =>
        var run := Converter.Conversion(inp, Some(out), env);
        StepSiblingIsStep(inp);
        StepOfferOnDisk(inp, out, env, fs, FallbackPrefix);
        UiRun(AfterConversion(inp, run, fs, FallbackPrefix), run.trace)
  }

  /**
   * The upload is preferred: when there is one, the latest path plays no part. With
   * neither, nothing is converted and the reply says so.
   */
  lemma ConvertFileInput(upload: Option<string>, latest1: Option<string>, latest2: Option<string>,
                         env: Converter.Env, fs: set<string>)
    ensures upload.Some? ==> ConvertFile(upload, latest1, env, fs) == ConvertFile(upload, latest2, env, fs)
    ensures upload.None? && (latest1.None? || latest1.value == "") ==>
      ConvertFile(upload, latest1, env, fs) == UiRun(Success(Reply(None, NoInputStatus)), [])
    ensures ChooseInput(upload, latest1).Some? ==>
      ConvertFile(upload, latest1, env, fs) == ConvertFile(ChooseInput(upload, latest1), None, env, fs)
  {
  }

  /**
   * `with_suffix('.step')` raises, before anything is converted, exactly when the input's
   * name is empty; otherwise the tab always replies.
   */
  lemma ConvertFileRaises(inp: string, env: Converter.Env, fs: set<string>)
    ensures var ui := ConvertFile(Some(inp), None, env, fs);
      (ui.result.Failure? <==> Paths.Name(Paths.Parse(inp)) == "")
      && (ui.result.Failure? ==> ui.trace == [] && ui.result.error.PathError?)
  {
    SuffixesValid();
    Paths.ReplaceSuffixSucceeds(inp, StepSuffix, StlSuffix);
  }

  /**
   * The tab runs the same conversion as `glb_to_step` with no output given, and offers the
   * STEP file, the input with suffix ".step", exactly when that conversion succeeds.
   */
  lemma ConvertFileSuccess(inp: string, env: Converter.Env, fs: set<string>)
    requires Paths.Name(Paths.Parse(inp)) != ""
    ensures ConvertFile(Some(inp), None, env, fs).result.Success?
    ensures var ui := ConvertFile(Some(inp), None, env, fs);
      var run := Converter.Conversion(inp, None, env);
      ui.trace == run.trace
      && (ui.result.value.file.Some? && ui.result.value.status == SuccessStatus <==> run.result.Success?)
      && (run.result.Success? ==>
            ui.result.value.file == Some(Paths.ReplaceSuffix(inp, StepSuffix).value))
  {
    SuffixesValid();
    Paths.ReplaceSuffixSucceeds(inp, StepSuffix, StlSuffix);
    ExplicitDefaultOutput(inp, env);
    OutputPath(inp, None, env);
    var run := Converter.Conversion(inp, None, env);
    if run.result.Failure? {
      FallbackOffersExportedStl(inp, None, env, fs, FallbackPrefix);
    }
    assert !StartsWith(SuccessStatus, FallbackPrefix) by {
      assert SuccessStatus[0] != FallbackPrefix[0];
    }
    SuccessReply(inp, run, fs, FallbackPrefix);
  }

  /**
   * After a failed conversion the tab offers the input's ".stl" sibling exactly when that
   * file is on disk, and that is the file `glb_to_step` exports: whenever the conversion
   * wrote anything, its first write was that STL, and the tab offers it.
   */
  lemma ConvertFileFallback(inp: string, env: Converter.Env, fs: set<string>)
    requires Paths.Name(Paths.Parse(inp)) != ""
    requires Converter.Conversion(inp, None, env).result.Failure?
    ensures Paths.ReplaceSuffix(inp, StlSuffix).Success?
    ensures var ui := ConvertFile(Some(inp), None, env, fs);
      var run := Converter.Conversion(inp, None, env);
      var stl := Paths.ReplaceSuffix(inp, StlSuffix).value;
      var msg := Message(run.result.error);
      ui.result.Success?
      && (ui.result.value.file.Some? <==> stl in FilesAfter(fs, run.trace))
      && (ui.result.value.file.Some? ==>
            ui.result.value == Reply(Some(stl), FallbackPrefix + msg + FallbackSuffix))
      && (ui.result.value.file.None? ==> ui.result.value.status == FailedPrefix + msg)
      && (run.trace != [] ==> run.trace[0] == ExportStl(stl) && ui.result.value.file == Some(stl))
  {
    SuffixesValid();
    Paths.ReplaceSuffixSucceeds(inp, StepSuffix, StlSuffix);
    ExplicitDefaultOutput(inp, env);
    FallbackOffersExportedStl(inp, None, env, fs, FallbackPrefix);
  }
}
