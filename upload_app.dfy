/**
 * The stand-alone upload app: convert an uploaded GLB into a STEP file in a fresh
 * temporary directory, or offer the intermediate STL when the conversion fails.
 */
module UploadApp {
  import opened Wrappers
  import opened Model
  import opened Replies
  import opened Converter
  import opened ConversionProperties
  import Paths
  import Strings

  const NoUploadStatus := "No file uploaded"
  const UploadFallbackPrefix := "Conversion to STEP failed: "

  /** `os.path.join(tmp_dir, Path(input_path).stem + '.step')`. */
  function UploadTarget(tmpDir: string, inp: string): string
  {
    Paths.OsJoin(tmpDir, Paths.Stem(Paths.Name(Paths.Parse(inp))) + StepSuffix)
  }

  /**
   * `convert_upload(file_obj)`: `upload` is the uploaded file's path, `tmpDir` the
   * directory `mkdtemp` created, `fs` the files on disk beforehand.
   */
  function ConvertUpload(upload: Option<string>, tmpDir: string, env: Env, fs: set<string>): (r: UiRun)
    ensures r.result.Failure? ==> upload.Some? && Paths.Name(Paths.Parse(upload.value)) == ""
    ensures (r.result.Success? && r.result.value.file.Some?
             && (env.script != r.result.value.file.value || Strings.EndsWith(env.script, ".py"))) ==>
      r.result.value.file.value in FilesAfter(fs, r.trace)
  {
    match upload
    case None => UiRun(Success(Reply(None, NoUploadStatus)), [])
    case Some(inp) =>
      var out := Some(UploadTarget(tmpDir, inp));
      var run := Conversion(inp, out, env);
      UploadTargetIsStep(tmpDir, inp);
      StepOfferOnDisk(inp, out.value, env, fs, UploadFallbackPrefix);
      UiRun(AfterConversion(inp, run, fs, UploadFallbackPrefix), run.trace)
  }

  /** The STEP target is a ".step" path, whatever the temporary directory. */
  lemma UploadTargetIsStep(tmpDir: string, inp: string)
    ensures Strings.EndsWith(UploadTarget(tmpDir, inp), StepSuffix)
  {
    var b := Paths.Stem(Paths.Name(Paths.Parse(inp))) + StepSuffix;
    Strings.EndsWithAppended(Paths.Stem(Paths.Name(Paths.Parse(inp))), StepSuffix);
    if !(|b| > 0 && b[0] == '/') {
      Strings.EndsWithTransitive(UploadTarget(tmpDir, inp), b, StepSuffix);
    }
  }

  /** Without an upload nothing is converted. */
  lemma NoUploadNoConversion(tmpDir: string, env: Env, fs: set<string>)
    ensures ConvertUpload(None, tmpDir, env, fs) == UiRun(Success(Reply(None, NoUploadStatus)), [])
  {
  }

  /**
   * The STEP file goes into the temporary directory, as one more component named after
   * the upload's stem with suffix ".step"; when the upload has a name its stem is kept.
   */
  lemma UploadTargetPath(tmpDir: string, inp: string)
    ensures var stem := Paths.Stem(Paths.Name(Paths.Parse(inp)));
      Paths.Parse(UploadTarget(tmpDir, inp))
        == Paths.PurePath(Paths.Parse(tmpDir).rooted, Paths.Parse(tmpDir).parts + [stem + StepSuffix])
    ensures Paths.Name(Paths.Parse(inp)) != "" ==>
      Paths.Stem(Paths.Name(Paths.Parse(UploadTarget(tmpDir, inp)))) == Paths.Stem(Paths.Name(Paths.Parse(inp)))
  {
    SuffixesValid();
    var name := Paths.Name(Paths.Parse(inp));
    var stem := Paths.Stem(name);
    if name == "" {
      assert stem + StepSuffix == StepSuffix;
      assert StepSuffix[0] in StepSuffix;
    } else {
      Paths.RenamedIsComponent(name, StepSuffix);
      Paths.StemIsPrefix(name);
      Paths.StemOfSimpleSuffix(stem, StepSuffix);
    }
    Paths.ParseJoin(tmpDir, stem + StepSuffix);
  }

  /**
   * A successful conversion is offered at the target with "Conversion successful"; for an
   * upload with a name the app always replies, and offers a file with that status exactly
   * when the conversion succeeds.
   */
  lemma UploadSuccess(inp: string, tmpDir: string, env: Env, fs: set<string>)
    ensures Conversion(inp, Some(UploadTarget(tmpDir, inp)), env).result.Success? ==>
      ConvertUpload(Some(inp), tmpDir, env, fs).result
        == Success(Reply(Some(UploadTarget(tmpDir, inp)), SuccessStatus))
    ensures Paths.Name(Paths.Parse(inp)) != "" ==>
      var ui := ConvertUpload(Some(inp), tmpDir, env, fs);
      ui.result.Success?
      && (ui.result.value.file.Some? && ui.result.value.status == SuccessStatus
          <==> Conversion(inp, Some(UploadTarget(tmpDir, inp)), env).result.Success?)
  {
    var run := Conversion(inp, Some(UploadTarget(tmpDir, inp)), env);
    if Paths.Name(Paths.Parse(inp)) != "" {
      assert !Strings.StartsWith(SuccessStatus, UploadFallbackPrefix) by {
        assert SuccessStatus[11] != UploadFallbackPrefix[11];
      }
      SuccessReply(inp, run, fs, UploadFallbackPrefix);
    }
  }

  /**
   * After a failed conversion of an upload with a name, the app offers the upload's ".stl"
   * sibling exactly when it exists, with "Conversion to STEP failed: <error>. Provided STL
   * instead.", and that is the STL `glb_to_step` exports for the same input.
   */
  lemma UploadFallback(inp: string, tmpDir: string, env: Env, fs: set<string>)
    requires Paths.Name(Paths.Parse(inp)) != ""
    requires Conversion(inp, Some(UploadTarget(tmpDir, inp)), env).result.Failure?
    ensures Paths.ReplaceSuffix(inp, StlSuffix).Success?
    ensures var ui := ConvertUpload(Some(inp), tmpDir, env, fs);
      var run := Conversion(inp, Some(UploadTarget(tmpDir, inp)), env);
      var stl := Paths.ReplaceSuffix(inp, StlSuffix).value;
      var msg := Message(run.result.error);
      ui.result.Success? && ui.trace == run.trace
      && (ui.result.value.file.Some? <==> stl in FilesAfter(fs, run.trace))
      && (ui.result.value.file.Some? ==>
            ui.result.value == Reply(Some(stl), UploadFallbackPrefix + msg + FallbackSuffix))
      && (ui.result.value.file.None? ==> ui.result.value.status == FailedPrefix + msg)
      && (run.trace != [] ==> run.trace[0] == ExportStl(stl) && ui.result.value.file == Some(stl))
  {
    FallbackOffersExportedStl(inp, Some(UploadTarget(tmpDir, inp)), env, fs, UploadFallbackPrefix);
  }

  /**
   * An upload whose path has no name ("/", ".") is never converted: the conversion stops
   * before writing anything, and forming the STL name in the `except` branch raises.
   */
  lemma NamelessUploadRaises(inp: string, tmpDir: string, env: Env, fs: set<string>)
    requires Paths.Name(Paths.Parse(inp)) == ""
    ensures var ui := ConvertUpload(Some(inp), tmpDir, env, fs);
      ui.trace == [] && ui.result.Failure? && ui.result.error.PathError?
  {
    SuffixesValid();
    Paths.ReplaceSuffixSucceeds(inp, StlSuffix, StlSuffix);
    ConversionShape(inp, Some(UploadTarget(tmpDir, inp)), env);
  }
}
