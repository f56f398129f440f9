/**
 * The values the GLB -> STEP converter works with: the loaded mesh, the triangle faces
 * it hands to the CAD kernel, the status of the STEP writer, the errors it raises and
 * the effects it has on the file system, recorded as a trace of events.
 */
module Model {
  import opened Wrappers
  import opened Strings
  import Paths

  /** The suffixes `glb_to_step` and `_repair_mesh` put on the input path. */
  const StepSuffix := ".step"
  const StlSuffix := ".stl"
  const RepairedSuffix := ".repaired.stl"

  /** `with_suffix` accepts all three; the first two hold a single dot. */
  lemma SuffixesValid()
    ensures Paths.SimpleSuffix(StepSuffix) && Paths.SimpleSuffix(StlSuffix)
    ensures Paths.ValidSuffix(StepSuffix) && Paths.ValidSuffix(StlSuffix) && Paths.ValidSuffix(RepairedSuffix)
    ensures StepSuffix != "" && StlSuffix != "" && RepairedSuffix != ""
  {
    assert forall k | 0 <= k < |RepairedSuffix| :: RepairedSuffix[k] != '/';
    assert forall k | 0 <= k < |StlSuffix| :: StlSuffix[k] != '/';
    assert forall k | 0 <= k < |StepSuffix| :: StepSuffix[k] != '/';
    assert forall k | 1 <= k < |StlSuffix| :: StlSuffix[k] != '.';
    assert forall k | 1 <= k < |StepSuffix| :: StepSuffix[k] != '.';
  }

  /** A vertex position; coordinates are passed through untouched, so no arithmetic is modelled. */
  datatype Point = Point(x: real, y: real, z: real)

  /** A triangle as three vertex indices. */
  datatype Triangle = Triangle(i0: nat, i1: nat, i2: nat)

  /** A mesh as trimesh loads it; `isEmpty` is the value of its `is_empty` property. */
  datatype Mesh = Mesh(vertices: seq<Point>, faces: seq<Triangle>, isEmpty: bool)

  /** The planar face built from the closed polygon p0 -> p1 -> p2 -> p0. */
  datatype Face = Face(p0: Point, p1: Point, p2: Point)

  /**
   * What the OCC calls for one triangle do: the points and the polygon are made outside the
   * per-triangle `try`, so an exception there escapes (`Raised`); inside it, the wire or the
   * face fails and the triangle is skipped (`Skipped`), or the face is added (`Built`).
   */
  datatype FaceBuild = Built | Skipped | Raised(message: string)

  /** IFSelect_ReturnStatus, the status the STEP writer reports. */
  datatype WriterStatus = RetVoid | RetDone | RetError | RetFail | RetStop

  function StatusCode(s: WriterStatus): nat
  {
    match s
    case RetVoid => 0
    case RetDone => 1
    case RetError => 2
    case RetFail => 3
    case RetStop => 4
  }

  /** The guarded repair steps of `_repair_mesh`, in the order they are tried. */
  datatype RepairStep = FillHoles | FixNormals | RemoveDegenerateFaces | MeshFix

  /** What one conversion does outside the process, in order. */
  datatype Event =
    | ExportStl(path: string)                                   // mesh.export(<name>.stl)
    | TryRepair(step: RepairStep, ok: bool)                     // one guarded repair step ran
    | WriteRepaired(path: string, applied: seq<RepairStep>)     // the repaired mesh was exported
    | Sew(faces: seq<Face>)                                     // the faces handed to the sewing operation
    | WriteStep(path: string, status: WriterStatus)             // STEPControl_Writer.Write
    | WriteScript(script: string, meshPath: string, stepPath: string) // the FreeCAD script, with the paths it names
    | RunFreeCad(binary: string, script: string, stepPath: string, stepExists: bool)
    | RemoveScript(script: string)

  /** The exceptions `glb_to_step` lets out. */
  datatype Error =
    | PathError(cause: Paths.PathError)       // ValueError from with_suffix
    | LoadFailed(message: string)             // trimesh.load raised
    | EmptyMesh(glbPath: string)              // ValueError: loaded mesh is empty
    | ExportFailed(message: string)           // mesh.export of the STL raised
    | IndexOutOfBounds(index: nat, size: nat) // IndexError from verts[tri[k]]
    | OccFailed(message: string)              // an OCC call outside a `try` raised
    | WriterFailed(status: WriterStatus)      // RuntimeError: STEP writer status
    | FreeCadFailed(stlPath: string)          // RuntimeError: FreeCAD detected but failed
    | NoConverter(stlPath: string)            // RuntimeError: neither pythonocc nor FreeCAD

  const FreeCadFailedPrefix := "STEP conversion failed. FreeCAD was detected but conversion failed. The intermediate STL has been written to: "
  const NoConverterPrefix := "pythonocc-core is required to convert to STEP in this environment, or install FreeCAD. The intermediate STL has been written to: "

  /**
   * `str(e)`. The exceptions of the libraries keep their own text; the errors the converter
   * raises itself end with the path they are about: the GLB for an empty mesh, and the STL
   * left on disk for the two errors that point the user at it.
   */
  function Message(e: Error): (r: string)
    ensures e.LoadFailed? || e.ExportFailed? || e.OccFailed? ==> r == e.message
    ensures e.EmptyMesh? ==> EndsWith(r, e.glbPath)
    ensures e.FreeCadFailed? || e.NoConverter? ==> EndsWith(r, e.stlPath)
  {
    match e
    case PathError(c) => Paths.PathMessage(c)
    case LoadFailed(m) => m
    case EmptyMesh(p) => EndsWithAppended("Loaded mesh is empty: ", p); "Loaded mesh is empty: " + p
    case ExportFailed(m) => m
    case IndexOutOfBounds(i, n) => "index " + NatToString(i) + " is out of bounds for axis 0 with size " + NatToString(n)
    case OccFailed(m) => m
    case WriterFailed(s) => "STEP writer returned status " + NatToString(StatusCode(s))
    case FreeCadFailed(p) => EndsWithAppended(FreeCadFailedPrefix, p); FreeCadFailedPrefix + p
    case NoConverter(p) => EndsWithAppended(NoConverterPrefix, p); NoConverterPrefix + p
  }

  /** The files on disk after one event. */
  function Apply(fs: set<string>, e: Event): set<string>
  {
    match e
    case ExportStl(p) => fs + {p}
    case TryRepair(_, _) => fs
    case WriteRepaired(p, _) => fs + {p}
    case Sew(_) => fs
    case WriteStep(p, s) => if s == RetDone then fs + {p} else fs
    case WriteScript(s, _, _) => fs + {s}
    case RunFreeCad(_, _, p, made) => if made then fs + {p} else fs
    case RemoveScript(s) => fs - {s}
  }

  /** The files on disk after a trace, starting from `fs`. */
  function FilesAfter(fs: set<string>, trace: seq<Event>): set<string>
    decreases |trace|
  {
    if trace == [] then fs else FilesAfter(Apply(fs, trace[0]), trace[1..])
  }

  predicate Removes(e: Event, p: string)
  {
    e == RemoveScript(p)
  }

  /** A file present before a trace that never removes it is still there afterwards. */
  lemma {:induction false} FilesPersist(fs: set<string>, trace: seq<Event>, p: string)
    requires p in fs
    requires forall k | 0 <= k < |trace| :: !Removes(trace[k], p)
    ensures p in FilesAfter(fs, trace)
    decreases |trace|
  {
    if trace != [] {
      assert !Removes(trace[0], p);
      FilesPersist(Apply(fs, trace[0]), trace[1..], p);
    }
  }

  /** A file written by an event of a trace, and never removed after it, is there at the end. */
  lemma FilesAfterWritten(fs: set<string>, trace: seq<Event>, k: nat, p: string)
    requires k < |trace| && p in Apply({}, trace[k])
    requires forall j | k < j < |trace| :: !Removes(trace[j], p)
    ensures p in FilesAfter(fs, trace)
  {
    FilesAfterSplit(fs, trace[..k], trace[k..]);
    assert trace == trace[..k] + trace[k..];
    var mid := FilesAfter(fs, trace[..k]);
    var rest := trace[k + 1..];
    assert trace[k..] == [trace[k]] + rest;
    assert FilesAfter(mid, trace[k..]) == FilesAfter(Apply(mid, trace[k]), rest);
    assert p in Apply(mid, trace[k]);
    forall j | 0 <= j < |rest| ensures !Removes(rest[j], p) {
      assert rest[j] == trace[k + 1 + j];
    }
    FilesPersist(Apply(mid, trace[k]), rest, p);
  }

  lemma {:induction false} FilesAfterSplit(fs: set<string>, a: seq<Event>, b: seq<Event>)
    ensures FilesAfter(fs, a + b) == FilesAfter(FilesAfter(fs, a), b)
    decreases |a|
  {
    if a == [] {
      assert a + b == b;
    } else {
      assert (a + b)[0] == a[0];
      assert (a + b)[1..] == a[1..] + b;
      FilesAfterSplit(Apply(fs, a[0]), a[1..], b);
    }
  }
}
