# GLB -> STEP fallback chain

A Dafny model of how the TRELLIS demo converts a generated GLB mesh into a STEP file, and of the
decisions its two web front ends make around that conversion. The mesh geometry and the CAD
libraries are not modelled. The model covers what the code decides for itself:

- **`glb_to_step`** (`converter.dfy`):
  - load the mesh and refuse an empty one;
  - always export `<name>.stl` next to the input;
  - try a best-effort repair that may write `<name>.repaired.stl`;
  - take exactly one route to STEP. The pythonocc route builds one face per triangle, skips the
    triangles it cannot build, sews them and writes the STEP file. When pythonocc cannot be
    imported, FreeCAD is run on a generated script when a binary is on the `PATH`. With neither,
    an error names the STL left on disk.
- **`_repair_mesh`** (`repair.dfy`): the four guarded repair steps and the path it returns.
- **`main`**: the command line (`Converter.CommandLine`).
- **pathlib and `os.path.join`** (`paths.dfy`): `Path(s)`, `str(p)`, `name`, `suffix`, `stem`,
  `with_suffix` and `os.path.join` on POSIX paths. Every output path is derived with these.
- **The unified app** (`combined_app.dfy`): the sampling presets of the text and image tabs,
  `find_latest_glb` and `_convert_file`.
- **The upload app** (`upload_app.dfy`): `convert_upload`.
- **Both apps** (`replies.dfy`): the shared "offer the STL instead" reply.

Every outside effect is an input of the model:

- what `trimesh.load` returns;
- whether each export or repair step raises;
- whether pythonocc imports;
- whether each OCC call outside a `try` raises: setting up the builder, compound and sewing
  objects, making a triangle's points and polygon, and sewing and writing;
- whether each triangle's wire and face can be built;
- the STEP writer's status;
- what `shutil.which` resolves;
- the FreeCAD process's exit code, and whether the STEP file then exists;
- the script path `mkstemp` returns;
- the temporary directory `mkdtemp` creates;
- the files present and their modification times.

Each call yields its result plus a trace of file-system events, and `Model.FilesAfter` replays
that trace to give the files on disk afterwards. Three of the imperative parts are methods proved
equal to a specification function: `GlbToStep` (to `Conversion`), `RepairMesh` (to `RepairSpec`)
and the triangle loop `SewTriangles` (to `SewnFaces`). The properties are lemmas about those
functions. The fourth, `LatestOf`, the `max` by mtime, is proved against the predicate
`FirstLatest` instead: its result satisfies it, and `FirstLatestUnique` shows only one candidate
can.

Where the specification and the code disagree, the model follows the code:

- **Empty meshes.** An empty mesh is whatever trimesh's `is_empty` says (an input), not a
  zero-face test.
- **Raising.** `glb_to_step` raises on every failure; only the front ends fall back to the STL.
- **`_repair_mesh` can raise.** It forms its output path outside its `try`, so it raises on an
  input with no name. `Repair.RepairOfSiblingSucceeds` shows this cannot happen when it is called
  from `glb_to_step`.
- **Sewing.** If no triangle can be built, the call does not fail by itself. An empty sewing still
  reaches the STEP writer, and the writer's status decides.
- **The STEP writer's error** does not name the STL.
- **Exceptions can escape the front ends.** `_convert_file` forms its `.step` path before its
  `try`. `convert_upload` forms its `.stl` path inside its `except`. So a ValueError can escape
  either front end instead of becoming a status message.

## Model

| member | source | states |
|---|---|---|
| Paths.Parse | glb_to_step.py:83 | `Path(s)` keeps only real components: none empty, none ".", none containing '/' |
| Paths.LastDot | glb_to_step.py:83 | `rfind('.')`: the index of the last dot, or -1 when the name has none |
| Paths.WithSuffix | glb_to_step.py:36 | `with_suffix` succeeds exactly for a valid suffix on a path with a name; otherwise it gives the empty-name ValueError; it keeps the root and the parent and makes the name stem + suffix |
| Paths.Render | glb_to_step.py:83 | `str(p)` of a parsed path is never empty, and begins with '/' exactly when the path is rooted |
| Paths.Name | glb_to_step_app.py:25 | `p.name` of a parsed path is empty exactly when it has no components, and never holds a '/' |
| Paths.Suffix | glb_to_step.py:83 | `suffix` is empty, or a dot followed by at least one character and no further dot; the name ends with it, and a non-empty suffix is shorter than the name |
| Paths.Stem | glb_to_step_app.py:25 | `stem` is no longer than the name, and non-empty for a non-empty name |
| Paths.StemAndSuffix | glb_to_step_app.py:25 | a name is its stem followed by its suffix |
| Paths.ReplaceSuffix | glb_to_step.py:83-90 | `str(Path(p).with_suffix(s))` succeeds exactly for a valid suffix on a path with a name; for a valid suffix its only error is the empty-name ValueError |
| Paths.OsJoin | glb_to_step_app.py:25 | `os.path.join(a, b)`: an absolute b replaces a; otherwise the result starts with a and ends with b |
| Paths.RenderParses | glb_to_step.py:83 | `Path(str(p)) == p` for every parsed path |
| Paths.RenderInjective | glb_to_step.py:83 | two parsed paths with the same string form are the same path |
| Paths.ParseJoin | glb_to_step_app.py:25 | `os.path.join(dir, c)` for a single component c parses as dir's components followed by c |
| Paths.StemOfSimpleSuffix | glb_to_step_app.py:25 | a non-empty stem followed by ".step" (or ".stl") has that stem and that suffix again |
| Paths.ReplaceSuffixParses | glb_to_step.py:90 | `str(Path(p).with_suffix(s))` parses as p's parent followed by stem + s |
| Paths.ReplaceSuffixSucceeds | glb_to_step.py:83 | `with_suffix` succeeds exactly when the input has a name, whatever the valid suffix |
| Paths.ReplaceSuffixEndsWith | glb_to_step.py:90 | the derived path ends with the suffix put on |
| Paths.SiblingsShareStem | glb_to_step.py:83-90 | the ".step" and ".stl" outputs share the input's root, directory and stem, and are different files |
| Paths.RenamedSibling | glb_to_step.py:36 | putting ".repaired.stl" on the ".stl" sibling gives the input's own ".repaired.stl" sibling |
| Paths.SiblingParse | glb_to_step.py:90 | the ".stl" sibling has the input's root, directory and stem, and a non-empty name |
| Strings.ScriptIsNotStep | glb_to_step.py:122 | a path ending ".py" (the script) is never a path ending ".step" |
| Strings.EndingsDiffer | glb_to_step.py:122 | a path ending ".py" (the script) is never a path ending ".stl" |
| Model.SuffixesValid | glb_to_step.py:83-90 | ".step", ".stl" and ".repaired.stl" are suffixes `with_suffix` accepts; the first two hold a single dot |
| Model.Message | glb_to_step.py:87-215 | `str(e)`: the libraries' exceptions keep their own text; "Loaded mesh is empty" ends with the GLB path; both "intermediate STL" RuntimeErrors end with the STL path they carry |
| Model.FilesAfterWritten | glb_to_step.py:217 | a file written by an event of a trace and never removed later is on disk at the end |
| Repair.Survivors | glb_to_step.py:39-67 | the repairs the mesh carries are at most the attempted ones, and none of them raised |
| Repair.Tries | glb_to_step.py:39-67 | one recorded attempt per guarded step, in order, with whether it raised |
| Repair.Guarded | glb_to_step.py:47-50 | one `try: step except: pass` block is recorded and applied only if it does not raise |
| Repair.RepairSpec | glb_to_step.py:25-73 | `_repair_mesh` raises only once the mesh has loaded, and returns either its input or the input's ".repaired.stl" sibling |
| Repair.RepairSteps | glb_to_step.py:39-67 | the step-by-step rebinding of the mesh ends with exactly the surviving steps, and the events with every attempt |
| Repair.RepairMesh | glb_to_step.py:25-73 | `_repair_mesh` step by step equals its specification `RepairSpec` |
| Repair.RepairReturns | glb_to_step.py:25-73 | it returns its input when loading, the watertightness test or the final export raises, and the ".repaired.stl" sibling otherwise; it raises only when forming that sibling does |
| Repair.RepairOfSiblingSucceeds | glb_to_step.py:95 | called on the ".stl" sibling of a path, `_repair_mesh` never raises |
| Repair.FailuresDoNotStopLaterSteps | glb_to_step.py:39-67 | the steps tried are the same whichever of them raise, and each outcome is recorded in order |
| Repair.FillHolesOnlyWhenOpen | glb_to_step.py:40-45 | holes are filled exactly when the mesh is not watertight; the other three steps always run |
| Repair.RepairedMeshCarriesSurvivors | glb_to_step.py:39-71 | a step is in the exported mesh exactly when it was attempted and did not raise |
| Repair.RepairWritesOnlyWhatItReturns | glb_to_step.py:69-71 | the repaired file is written only as the last event, at the path returned; a new path is always the one just written |
| Converter.TriangleError | glb_to_step.py:186-199 | a triangle the loop cannot get past raises an IndexError or the exception of its point or polygon calls |
| Converter.FaceOf | glb_to_step.py:187-189 | indexing the three vertices succeeds exactly when all indices are in range; otherwise an IndexError with the vertex count |
| Converter.SewnFaces | glb_to_step.py:186-206 | the loop runs to the end exactly when every triangle's indices are in range and no point or polygon call raises; it adds at most one face per triangle, every face added was built, and an error is an IndexError or an OCC exception |
| Converter.SewTriangles | glb_to_step.py:184-206 | the `for tri in faces` loop that accumulates `sewing` equals `SewnFaces` |
| Converter.FreeCadBinary | glb_to_step.py:118 | a binary is found exactly when one of the three names resolves; the first name that resolves wins |
| Converter.StepTarget | glb_to_step.py:82-83 | the STEP path is the one given; with none, the ".step" sibling, which can be formed exactly when the input has a name; its only error is the with_suffix ValueError |
| Converter.Prepare | glb_to_step.py:82-98 | a call stopped before a route has failed; a prepared call has the STEP target as its STEP path |
| Converter.Exported | glb_to_step.py:85-98 | a call that gets past the first stages has its mesh loaded and not empty, its ".stl" sibling formed and exported without error, and the repair of that STL done; a call stopped there has failed |
| Converter.OccRoute | glb_to_step.py:176-215 | the pythonocc route only sews and writes the STEP target; it succeeds exactly when set-up, every triangle and the finishing calls do not raise and the writer returns RetDone; its only errors are an OCC exception, an IndexError and the writer status |
| Converter.FreeCadRoute | glb_to_step.py:110-174 | the FreeCAD route never sews or writes with OCC; it succeeds exactly when a binary is found and FreeCAD converts, returning the STEP target; both of its errors name the STL in use |
| Converter.RouteOf | glb_to_step.py:100-110 | the route is chosen by the pythonocc import: with it no FreeCAD event occurs, without it no OCC event; a success returns the STEP target |
| Converter.Routed | glb_to_step.py:100-218 | a prepared call's first event is the STL export, and a success returns the STEP target |
| Converter.Conversion | glb_to_step.py:76-218 | `glb_to_step`: a success returns the STEP target, and no call succeeds without having written something |
| Converter.GlbToStep | glb_to_step.py:76-218 | `glb_to_step`, rebinding `step_path` and `stl_path` as it goes, gives the result and effects of `Conversion` |
| Converter.ExportAndRepair | glb_to_step.py:85-98 | load, empty check, STL export and repair reach the stage `Exported` describes |
| Converter.TakeRoute | glb_to_step.py:100-218 | the pythonocc, FreeCAD or error route gives the route's result and effects |
| Converter.CommandLine | glb_to_step.py:221-229 | `main` returns 2 exactly when given fewer than two arguments; otherwise 0 exactly when the conversion of `argv[1]` (output `argv[2]` if given) succeeds, and its exception otherwise |
| Converter.OutputArg | glb_to_step.py:226 | the output path is `argv[2]` exactly when there are more than two arguments |
| RouteProperties.BuiltIndices | glb_to_step.py:186-206 | the indices of the buildable triangles all lie within the triangle list |
| RouteProperties.SewnFacesAreBuiltTriangles | glb_to_step.py:186-206 | the sewn faces are exactly the faces of the buildable triangles, one each, in triangle order |
| RouteProperties.BuiltIndicesExact | glb_to_step.py:200-206 | those indices increase, and an index is among them exactly when its face builds |
| RouteProperties.RepairIsShaped | glb_to_step.py:95-98 | the repair stage hands on only repair attempts, plus at most one final export of the path it returns |
| RouteProperties.RoutedEvent | glb_to_step.py:90-218 | each event of a prepared call is the STL export, then repair events, then the route's own events |
| RouteProperties.SewnFacesFirstFailure | glb_to_step.py:186-199 | a loop that stops, stops at the first triangle it cannot get past, with that triangle's exception |
| RouteProperties.RoutedErrors | glb_to_step.py:100-218 | once prepared, the only errors are an IndexError, an OCC exception or a writer status on the pythonocc route, and one of the two FreeCAD errors without it |
| RouteProperties.RoutedOccRaises | glb_to_step.py:176-213 | an OCC exception ends the route exactly when the set-up, a triangle's point or polygon calls, or the sewing and writing raise; then the writer reports nothing and FreeCAD is not run |
| RouteProperties.RoutedRemovals | glb_to_step.py:150-158 | the only removal is the script's, as the last event, after a FreeCAD success |
| RouteProperties.RoutedKeeps | glb_to_step.py:89-98 | the exported STL and the STL in use are still on disk at the end, unless the call succeeded and the script removed is that very file (a ".py" script never is: `StlKeptOnDisk`) |
| RouteProperties.RoutedOneRoute | glb_to_step.py:100-174 | the events of one route only: pythonocc's or FreeCAD's, never both |
| RouteProperties.RoutedSews | glb_to_step.py:176-215 | the faces sewn come from the loaded mesh; a success ends with the sewing, then the write reporting RetDone |
| RouteProperties.RoutedScript | glb_to_step.py:127-148 | the FreeCAD script names the STL in use and the STEP target |
| RouteProperties.RoutedFreeCad | glb_to_step.py:150-168 | FreeCAD succeeds exactly on exit code 0 with the STEP file present (`stepExists`); otherwise it gives the "FreeCAD was detected" error naming the STL in use, which stays on disk, as does the script |
| RouteProperties.RoutedNoConverter | glb_to_step.py:169-174 | the "pythonocc-core is required" error arises exactly without pythonocc and without a binary, and names the STL in use, which is on disk |
| RouteProperties.RoutedWriter | glb_to_step.py:211-215 | a writer status other than RetDone is the error exactly on the pythonocc route once the faces are sewn and no OCC call raised; the write is the last event |
| RouteProperties.RoutedLeavesStep | glb_to_step.py:152-158 | a prepared success returns the STEP target and leaves it on disk (unless the script removed is that very file, which an explicit STEP path can name) |
| ConversionProperties.ConversionShape | glb_to_step.py:76-98 | a call either stops in the first stages, having written nothing and failing with a path, load, empty or export error, or is prepared with the STL exported and repaired and then takes its route |
| ConversionProperties.StoppedEarly | glb_to_step.py:85-98 | a call that stops before a route has written nothing, since repairing the exported STL cannot raise |
| ConversionProperties.OutputPath | glb_to_step.py:82-83 | the STEP file returned is the path given, or by default the input with suffix ".step"; when that default cannot be formed the call fails at once |
| ConversionProperties.ExplicitDefaultOutput | glb_to_step.py:82-83 | passing the default ".step" path explicitly gives the same call as passing none |
| ConversionProperties.DefaultOutputsAreSiblings | glb_to_step.py:83-90 | the default STEP file and the STL share the input's directory and stem, and differ |
| ConversionProperties.EmptyMeshRefused | glb_to_step.py:85-87 | an empty mesh fails with "Loaded mesh is empty: <glb>" before anything is written, and only an empty mesh gives that error |
| ConversionProperties.StlExportedFirst | glb_to_step.py:89-91 | something is written exactly when the output is known, the mesh loads non-empty, the input has a name and the export does not raise; the first write is the ".stl" sibling, and the call then always reaches a route |
| ConversionProperties.StlKeptOnDisk | glb_to_step.py:89-91 | once exported, the STL is on disk at the end, whether the call fails or succeeds |
| ConversionProperties.OneRouteTaken | glb_to_step.py:100-174 | with pythonocc nothing of FreeCAD happens; without it nothing is sewn or written by the STEP writer |
| ConversionProperties.OccSewsLoadedMesh | glb_to_step.py:176-209 | the faces sewn come from the mesh loaded from the GLB, not from the repaired STL; a success ends with the writer reporting RetDone |
| ConversionProperties.FreeCadScriptNamesStlInUse | glb_to_step.py:95-98 | the FreeCAD script names the ".repaired.stl" sibling when the repair loaded, measured and exported the mesh, and the ".stl" sibling otherwise |
| ConversionProperties.WriterFailureIsFinal | glb_to_step.py:211-215 | a writer status other than RetDone is reported as that status, only after sewing on the pythonocc route with no OCC call raising, and FreeCAD is never run |
| ConversionProperties.OccFailureIsFinal | glb_to_step.py:176-213 | once pythonocc is imported, an OCC call outside a `try` that raises escapes `glb_to_step`: FreeCAD is not tried, the writer reports nothing, and the exported STL stays on disk |
| ConversionProperties.NoConverterPointsAtStl | glb_to_step.py:169-174 | without pythonocc and a binary, the error names the STL in use, at the end of its message, and that STL is on disk |
| ConversionProperties.FreeCadOutcome | glb_to_step.py:150-168 | FreeCAD succeeds exactly on exit 0 with the STEP file present (`stepExists`); any other outcome reports the STL in use, which is on disk; the script is removed only after a success |
| ConversionProperties.SuccessLeavesStep | glb_to_step.py:152-218 | every success leaves the returned STEP file on disk (unless the script removed is that very file, which an explicit STEP path can name) |
| Replies.FallbackOffersExportedStl | app_combined.py:245-249 | after a failure the reply offers the ".stl" sibling exactly when it is on disk; whenever the call wrote anything, that sibling is its first write and is offered |
| Replies.AfterConversion | app_combined.py:242-249 | a success offers the converter's path with "Conversion successful"; the reply's exception escapes exactly when the conversion failed and the input has no name; a file offered after a failure is on disk |
| Replies.StepOfferOnDisk | app_combined.py:242-249 | with a ".step" output, every file a reply offers is on disk unless the script is that file, which the ".py" script `mkstemp` makes never is |
| Replies.OfferedOnDisk | app_combined.py:242-249 | every file a reply offers is on disk: the STEP file after a success (unless the script removed is that very file), the STL after a failure |
| Replies.SuccessReply | app_combined.py:243-244 | the converter's path is offered with "Conversion successful" exactly when the conversion succeeds, for any fallback prefix that cannot begin that status (both apps' prefixes) |
| CombinedApp.TextPreset | app_combined.py:105-111 | every text preset fits its sliders; any choice but "Fast" and "High Quality" gives the tab's initial values |
| CombinedApp.ImagePreset | app_combined.py:157-164 | every image preset fits its sliders; any choice but "Fast" and "High Quality" gives the tab's initial values |
| CombinedApp.PresetsOrdered | app_combined.py:98-164 | "Balanced" equals each tab's initial sliders; "Fast" is the same on both tabs; no value goes down from Fast to Balanced to High Quality; the three choices differ |
| CombinedApp.LatestOf | app_combined.py:223 | `max(glbs, key=mtime)` fails exactly when a `stat` raises, and otherwise returns the first newest candidate |
| CombinedApp.FirstLatestUnique | app_combined.py:223 | only one candidate is the first newest |
| CombinedApp.FindLatestGlb | app_combined.py:205-230 | with a session hash, only that session's `sample.glb` is offered, if it exists; otherwise the first newest `sample.glb` of the scan, or "No generated GLB found" when the directory, the scan or a `stat` fails |
| CombinedApp.SessionGlbPath | app_combined.py:211-212 | the session file is `<TMP_DIR>/<hash>/sample.glb` |
| CombinedApp.ChooseInput | app_combined.py:233-239 | the upload is used if given, else a non-empty latest path, else nothing |
| CombinedApp.ConvertFile | app_combined.py:232-249 | `_convert_file` lets an exception out only for a chosen input with no name, and every file it offers is on disk, given the ".py" script `mkstemp` makes |
| CombinedApp.StepSiblingIsStep | app_combined.py:241 | the output `with_suffix('.step')` forms ends with ".step" |
| CombinedApp.ConvertFileInput | app_combined.py:233-239 | with an upload, the latest path plays no part; with neither, nothing is converted and the reply is "No GLB provided or found" |
| CombinedApp.ConvertFileRaises | app_combined.py:241 | forming the ".step" path raises, before anything is converted, exactly when the input has no name |
| CombinedApp.ConvertFileSuccess | app_combined.py:241-244 | the tab runs the same conversion as the default `glb_to_step`, and offers the input's ".step" sibling exactly when that conversion succeeds |
| CombinedApp.ConvertFileFallback | app_combined.py:245-249 | after a failure the tab offers exactly the STL `glb_to_step` exports, when it is on disk, with "STEP conversion failed: <error>. Provided STL instead." |
| UploadApp.NoUploadNoConversion | glb_to_step_app.py:19-20 | without an upload nothing is converted and the reply is "No file uploaded" |
| UploadApp.ConvertUpload | glb_to_step_app.py:18-34 | `convert_upload` lets an exception out only for an upload with no name, and every file it offers is on disk, given the ".py" script `mkstemp` makes |
| UploadApp.UploadTargetIsStep | glb_to_step_app.py:25 | the STEP target `os.path.join` forms ends with ".step" |
| UploadApp.UploadTargetPath | glb_to_step_app.py:24-25 | the STEP file is one component under the temporary directory, named after the upload's stem with suffix ".step", and keeps that stem |
| UploadApp.UploadSuccess | glb_to_step_app.py:26-28 | a successful conversion is offered at that target with "Conversion successful"; for an upload with a name the app always replies, and with that status and a file exactly when the conversion succeeds |
| UploadApp.UploadFallback | glb_to_step_app.py:29-34 | after a failure the app offers exactly the STL `glb_to_step` exports, when it is on disk, with "Conversion to STEP failed: <error>. Provided STL instead." |
| UploadApp.NamelessUploadRaises | glb_to_step_app.py:29-31 | an upload path with no name is never converted: nothing is written, and forming its ".stl" path in the `except` branch raises |

## Left out

- Geometry is not modelled:
  - trimesh loading, watertightness, hole filling, normals, degenerate faces and pymeshfix are modelled only as succeeding or raising;
  - so are the OCC calls: the set-up of the builder, compound and sewing objects, each triangle's point and polygon calls, its wire and face (whose failure skips the triangle), and sewing and writing as one step, and FreeCAD's own work;
  - an OCC exception from `sewing.Perform`, `SewedShape`, `Transfer` or `Write` is one outcome of that step: which of them raised, and anything `Write` may have put on disk before it raised, are not modelled;
  - vertex coordinates are carried along but never computed with.
- `Mesh.isEmpty` is trimesh's `is_empty`, taken as an input rather than computed from the faces.
- Converter.Exported, Repair.RepairSpec: a `mesh.export` that raises, for the ".stl" sibling or for the ".repaired.stl" one, is modelled as writing nothing; a partly written file it may leave behind, which a front end would then offer, is not modelled.
- Repair.RepairSteps: a step that raises part-way through is treated as not applied at all. Changes it made to the mesh before raising are not modelled.
- The FreeCAD route:
  - the script's text and the `stderr` capture are not modelled;
  - the 300-second timeout is modelled only as the process raising;
  - the inner RuntimeError is not modelled, because the outer handler replaces it with its own message;
  - a `mkstemp` failure, or a failure writing the script, is not modelled. Both would raise out of `glb_to_step` with the library's own error.
- RouteProperties.RoutedFreeCad: the `os.path.exists(step_path)` test after FreeCAD exits is the input `stepExists`, not derived from the files on disk. It stands for the file being there after the run, so it must be true whenever the target was already on disk before, as when the same GLB is converted twice to its ".step" sibling.
- ConversionProperties.FreeCadOutcome: the same `stepExists` input decides FreeCAD's success, with the same obligation when the target already exists.
- Failures of `os.remove` on the script are modelled as the script staying on disk, which is what the code does after swallowing the error.
- Negative numpy indices are not modelled: vertex indices are natural numbers, so only indices past the end raise.
- Paths:
  - pathlib's special treatment of a leading "//" is not modelled;
  - the suffix rule is that of Python up to 3.13;
  - the front ends' `Path.exists` is membership in the set of files on disk; the FreeCAD route's `os.path.exists(step_path)` is not (see below).
- `main`'s usage and "Wrote STEP" lines, and all status printing, are not modelled.
- CombinedApp.FindLatestGlb:
  - modification times are integers, not floats;
  - that the scan lists only files named `sample.glb` is taken as given by the input;
  - the outer "Error locating latest GLB" handler is not modelled, because nothing in its `try` outside the inner handler raises for string session hashes;
  - the app calls the lookup without a request, so in practice only the scan branch is reached.
- UploadApp.ConvertUpload: the temporary directory is an input; `tempfile.mkdtemp` raising, which happens before the `try` and so escapes `convert_upload`, is not modelled.
- The front ends do not model a generation run. If an STL from an earlier conversion of the same input is still on disk, it is offered as the fallback; the model allows this through the files present beforehand.
- Gradio wiring, the generation pipelines, their initialisation and the gradio_client patch are framework and library glue with no decisions of their own.
- Concurrency between conversions is not modelled.
