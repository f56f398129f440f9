/**
 * What the Gradio callbacks of the two web apps hand back after calling `glb_to_step`:
 * the STEP file, or after a failure the intermediate STL when it is on disk.
 */
module Replies {
  import opened Wrappers
  import opened Strings
  import opened Model
  import opened Converter
  import opened ConversionProperties
  import Paths

  /** The `(file, status)` pair a callback returns: the file offered for download, if any, and the status line. */
  datatype Reply = Reply(file: Option<string>, status: string)

  /** A callback's outcome (its reply, or the exception it lets out) and what it did on the file system. */
  datatype UiRun = UiRun(result: Result<Reply, Error>, trace: seq<Event>)

  const SuccessStatus := "Conversion successful"
  const FallbackSuffix := ". Provided STL instead."
  const FailedPrefix := "Conversion failed: "

  /**
   * The `try`/`except` around `glb_to_step` in both apps, once the conversion `run` of input
   * `inp` is over; `fs` is what was on disk before it. In the `except` branch the input's
   * ".stl" sibling is formed (a ValueError there escapes) and offered if it exists, with
   * the app's own `fallbackPrefix` in front of the error message.
   */
  function AfterConversion(inp: string, run: Run, fs: set<string>, fallbackPrefix: string): (r: Result<Reply, Error>)
    ensures run.result.Success? ==> r == Success(Reply(Some(run.result.value), SuccessStatus))
    ensures r.Failure? <==> run.result.Failure? && Paths.Name(Paths.Parse(inp)) == ""
    ensures r.Failure? ==> r.error.PathError?
    ensures r.Success? && r.value.file.Some? && run.result.Failure? ==> r.value.file.value in FilesAfter(fs, run.trace)
  {
    SuffixesValid();
    match run.result
    case Success(step) => Success(Reply(Some(step), SuccessStatus))
    case Failure(e) =>
      match Paths.ReplaceSuffix(inp, StlSuffix)
      case Failure(pe) => Failure(PathError(pe))
      case Success(stl) =>
        if stl in FilesAfter(fs, run.trace)
        then Success(Reply(Some(stl), fallbackPrefix + Message(e) + FallbackSuffix))
        else Success(Reply(None, FailedPrefix + Message(e)))
  }

  /**
   * After a failed conversion of an input with a name, the reply offers the input's ".stl"
   * sibling exactly when that file is on disk, and that is the file `glb_to_step`
   * exports: whenever the conversion wrote anything, its first write was that STL, and
   * the reply offers it.
   */
  lemma FallbackOffersExportedStl(inp: string, stepArg: Option<string>, env: Env, fs: set<string>, fallbackPrefix: string)
    requires Paths.Name(Paths.Parse(inp)) != ""
    requires Conversion(inp, stepArg, env).result.Failure?
    ensures Paths.ReplaceSuffix(inp, StlSuffix).Success?
    ensures var run := Conversion(inp, stepArg, env);
      var r := AfterConversion(inp, run, fs, fallbackPrefix);
      var stl := Paths.ReplaceSuffix(inp, StlSuffix).value;
      var msg := Message(run.result.error);
      r.Success?
      && (r.value.file.Some? <==> stl in FilesAfter(fs, run.trace))
      && (r.value.file.Some? ==> r.value == Reply(Some(stl), fallbackPrefix + msg + FallbackSuffix))
      && (r.value.file.None? ==> r.value.status == FailedPrefix + msg)
      && (run.trace != [] ==> run.trace[0] == ExportStl(stl) && r.value.file == Some(stl))
  {
    SuffixesValid();
    Paths.ReplaceSuffixSucceeds(inp, StlSuffix, StlSuffix);
    if Conversion(inp, stepArg, env).trace != [] {
      StlExportedFirst(inp, stepArg, env);
      StlKeptOnDisk(inp, stepArg, env, fs);
    }
  }

  /**
   * Every file a reply offers for download is on disk: the STEP file after a success (unless
   * the script removed is that very file), the STL after a failure.
   */
  lemma OfferedOnDisk(inp: string, stepArg: Option<string>, env: Env, fs: set<string>, fallbackPrefix: string)
    ensures var run := Conversion(inp, stepArg, env);
      var r := AfterConversion(inp, run, fs, fallbackPrefix);
      r.Success? && r.value.file.Some? && (run.result.Failure? || env.script != run.result.value) ==>
        r.value.file.value in FilesAfter(fs, run.trace)
  {
    var run := Conversion(inp, stepArg, env);
    if run.result.Success? && env.script != run.result.value {
      SuccessLeavesStep(inp, stepArg, env, fs);
    }
  }

  /**
   * When the output asked for is a ".step" path, every file a reply offers is on disk,
   * unless the script is that file; a ".py" script, as `mkstemp(suffix='.py')` makes it,
   * never is.
   */
  lemma StepOfferOnDisk(inp: string, out: string, env: Env, fs: set<string>, fallbackPrefix: string)
    requires EndsWith(out, StepSuffix)
    ensures var run := Conversion(inp, Some(out), env);
      var r := AfterConversion(inp, run, fs, fallbackPrefix);
      r.Success? && r.value.file.Some? && (env.script != r.value.file.value || EndsWith(env.script, ".py")) ==>
        r.value.file.value in FilesAfter(fs, run.trace)
  {
    var run := Conversion(inp, Some(out), env);
    if run.result.Success? && EndsWith(env.script, ".py") {
      OutputPath(inp, Some(out), env);
      ScriptIsNotStep(env.script, out);
    }
    OfferedOnDisk(inp, Some(out), env, fs, fallbackPrefix);
  }

  /**
   * A successful conversion's path is offered with "Conversion successful", and nothing
   * else is, for any app whose fallback status cannot begin the success status.
   */
  lemma SuccessReply(inp: string, run: Run, fs: set<string>, fallbackPrefix: string)
    requires !StartsWith(SuccessStatus, fallbackPrefix)
    requires AfterConversion(inp, run, fs, fallbackPrefix).Success?
    ensures var r := AfterConversion(inp, run, fs, fallbackPrefix).value;
      (r.file.Some? && r.status == SuccessStatus <==> run.result.Success?)
      && (run.result.Success? ==> r.file == Some(run.result.value))
  {
    if run.result.Failure? {
      var msg := fallbackPrefix + Message(run.result.error) + FallbackSuffix;
      assert SuccessStatus != msg by {
        assert msg[..|fallbackPrefix|] == fallbackPrefix;
      }
    }
  }
}
