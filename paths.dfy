/**
 * POSIX paths as Python's pathlib treats them: parsing a string into a rooted or
 * relative list of components, rendering it back with `str`, the last-dot suffix
 * rule of `name`, `suffix` and `stem`, `with_suffix`, and `os.path.join`.
 */
module Paths {
  import opened Wrappers
  import opened Strings

  /** A parsed path: whether it starts at the root, and its components in order. */
  datatype PurePath = PurePath(rooted: bool, parts: seq<string>)

  /** A component pathlib keeps after parsing: not empty, not ".", no separator. */
  predicate IsComponent(c: string)
  {
    c != "" && c != "." && '/' !in c
  }

  predicate WellFormed(p: PurePath)
  {
    forall i | 0 <= i < |p.parts| :: IsComponent(p.parts[i])
  }

  /** The index of the first '/' in `s`, or `|s|` when there is none. */
  function FirstSlash(s: string): (i: nat)
    ensures i <= |s|
    ensures forall k | 0 <= k < i :: s[k] != '/'
    ensures i < |s| ==> s[i] == '/'
  {
    if s == [] || s[0] == '/' then 0 else 1 + FirstSlash(s[1..])
  }

  /** The pieces of `s.split('/')` that pathlib keeps: empty and "." pieces are dropped. */
  function Components(s: string): (cs: seq<string>)
    ensures forall i | 0 <= i < |cs| :: IsComponent(cs[i])
    decreases |s|
  {
    if s == [] then []
    else
      var i := FirstSlash(s);
      var head := s[..i];
      assert forall k | 0 <= k < |head| :: head[k] != '/';
      var rest := if i < |s| then Components(s[i + 1..]) else [];
      Keep(head) + rest
  }

  /** `Path(s)`. */
  function Parse(s: string): (p: PurePath)
    ensures WellFormed(p)
  {
    PurePath(|s| > 0 && s[0] == '/', Components(s))
  }

  function JoinParts(cs: seq<string>): string
    decreases |cs|
  {
    if |cs| == 0 then "" else if |cs| == 1 then cs[0] else cs[0] + "/" + JoinParts(cs[1..])
  }

  /** `str(p)`: the root, then the components joined by '/', or "." for the empty relative path. */
  function Render(p: PurePath): (r: string)
    ensures WellFormed(p) ==> r != "" && (r[0] == '/' <==> p.rooted)
  {
    if p.rooted then "/" + JoinParts(p.parts)
    else if p.parts == [] then "."
    else JoinParts(p.parts)
  }

  /** `p.name`: the last component, or "" when there is none. */
  function Name(p: PurePath): (r: string)
    ensures WellFormed(p) ==> (r == "" <==> p.parts == [])
    ensures WellFormed(p) ==> '/' !in r
  {
    if p.parts == [] then "" else p.parts[|p.parts| - 1]
  }

  /** The components before the name. */
  function ParentParts(p: PurePath): seq<string>
  {
    if p.parts == [] then [] else p.parts[..|p.parts| - 1]
  }

  /** `name.rfind('.')`. */
  function LastDot(name: string): (i: int)
    ensures -1 <= i < |name|
    ensures 0 <= i ==> name[i] == '.'
    ensures forall k | i < k < |name| :: name[k] != '.'
  {
    if name == [] then -1
    else if name[|name| - 1] == '.' then |name| - 1
    else LastDot(name[..|name| - 1])
  }

  /** `p.suffix` of a name: from its last dot, unless that dot opens or ends the name. */
  function Suffix(name: string): (r: string)
    ensures r == "" || (|r| >= 2 && r[0] == '.' && forall k | 1 <= k < |r| :: r[k] != '.')
    ensures EndsWith(name, r) && (r != "" ==> |r| < |name|)
  {
    var i := LastDot(name);
    if 0 < i < |name| - 1 then name[i..] else ""
  }

  /** `p.stem` of a name: the name without its suffix. */
  function Stem(name: string): (r: string)
    ensures |r| <= |name|
    ensures name != "" ==> r != ""
  {
    var i := LastDot(name);
    if 0 < i < |name| - 1 then name[..i] else name
  }

  /** The ValueErrors `with_suffix` raises. */
  datatype PathError = InvalidSuffix(suffix: string) | EmptyName(path: string)

  /** `str(e)` for those errors (the repr of a path with an empty name is "PosixPath('.')" or "PosixPath('/')"). */
  function PathMessage(e: PathError): string
  {
    match e
    case InvalidSuffix(s) => "Invalid suffix '" + s + "'"
    case EmptyName(p) => "PosixPath('" + p + "') has an empty name"
  }

  /** A suffix `with_suffix` accepts: no separator, and either empty or a dot followed by something. */
  predicate ValidSuffix(suffix: string)
  {
    '/' !in suffix && (suffix == "" || (suffix[0] == '.' && suffix != "."))
  }

  /** `p.with_suffix(suffix)`: the last component loses its suffix and gains `suffix`. */
  function WithSuffix(p: PurePath, suffix: string): (r: Result<PurePath, PathError>)
    ensures r.Success? <==> ValidSuffix(suffix) && Name(p) != ""
    ensures r.Failure? && ValidSuffix(suffix) ==> r.error == EmptyName(Render(p))
    ensures r.Success? ==> r.value.rooted == p.rooted
    ensures r.Success? ==> ParentParts(r.value) == ParentParts(p)
    ensures r.Success? ==> Name(r.value) == Stem(Name(p)) + suffix
  {
    if '/' in suffix then Failure(InvalidSuffix(suffix))
    else if (suffix != "" && suffix[0] != '.') || suffix == "." then Failure(InvalidSuffix(suffix))
    else
      var name := Name(p);
      if name == "" then Failure(EmptyName(Render(p)))
      else
        var oldSuffix := Suffix(name);
        var renamed := if oldSuffix == "" then name + suffix else name[..|name| - |oldSuffix|] + suffix;
        Success(PurePath(p.rooted, p.parts[..|p.parts| - 1] + [renamed]))
  }

  /** `str(Path(path).with_suffix(suffix))`. */
  function ReplaceSuffix(path: string, suffix: string): (r: Result<string, PathError>)
    ensures r.Success? <==> ValidSuffix(suffix) && Name(Parse(path)) != ""
    ensures r.Failure? && ValidSuffix(suffix) ==> r.error == EmptyName(Render(Parse(path)))
  {
    match WithSuffix(Parse(path), suffix)
    case Success(q) => Success(Render(q))
    case Failure(e) => Failure(e)
  }

  /** `os.path.join(a, b)` on POSIX. */
  function OsJoin(a: string, b: string): (r: string)
    ensures |b| > 0 && b[0] == '/' ==> r == b
    ensures !(|b| > 0 && b[0] == '/') ==> StartsWith(r, a) && EndsWith(r, b)
  {
    if |b| > 0 && b[0] == '/' then b
    else if a == "" || a[|a| - 1] == '/' then a + b
    else a + "/" + b
  }

  /** A dot and at least one more character, none of them a dot or a separator (".stl", ".step"). */
  predicate SimpleSuffix(s: string)
  {
    |s| >= 2 && s[0] == '.' && '.' !in s[1..] && '/' !in s
  }

  // ---------------------------------------------------------------------------
  // Parsing and rendering

  lemma {:induction false} FirstSlashPast(c: string, t: string)
    requires '/' !in c
    ensures FirstSlash(c + t) == |c| + FirstSlash(t)
    decreases |c|
  {
    if c == [] {
      assert c + t == t;
    } else {
      assert (c + t)[0] == c[0];
      assert (c + t)[1..] == c[1..] + t;
      FirstSlashPast(c[1..], t);
    }
  }

  lemma {:induction false} FirstSlashWithin(a: string, t: string)
    requires FirstSlash(a) < |a|
    ensures FirstSlash(a + t) == FirstSlash(a)
    decreases |a|
  {
    assert (a + t)[0] == a[0];
    if a[0] != '/' {
      assert (a + t)[1..] == a[1..] + t;
      FirstSlashWithin(a[1..], t);
    }
  }

  lemma SingleComponent(c: string)
    requires IsComponent(c)
    ensures Components(c) == [c]
  {
    FirstSlashPast(c, "");
    assert c + "" == c;
    assert c[..|c|] == c;
  }

  lemma {:induction false} ComponentsOfJoin(cs: seq<string>)
    requires forall i | 0 <= i < |cs| :: IsComponent(cs[i])
    ensures Components(JoinParts(cs)) == cs
    decreases |cs|
  {
    if |cs| == 1 {
      SingleComponent(cs[0]);
      assert JoinParts(cs) == cs[0];
    } else if |cs| > 1 {
      var head, rest := cs[0], cs[1..];
      assert forall i | 0 <= i < |rest| :: rest[i] == cs[i + 1];
      var t := JoinParts(rest);
      assert JoinParts(cs) == head + "/" + t;
      assert IsComponent(head);
      ComponentsAppendNoSlash(head, t);
      SingleComponent(head);
      ComponentsOfJoin(rest);
      assert cs == [head] + rest;
    }
  }

  lemma JoinPartsStartsWithFirst(cs: seq<string>)
    requires |cs| > 0 && cs[0] != ""
    ensures |JoinParts(cs)| > 0 && JoinParts(cs)[0] == cs[0][0]
  {
  }

  /** Rendering a parsed path and parsing it again gives the same path: `Path(str(p)) == p`. */
  lemma RenderParses(p: PurePath)
    requires WellFormed(p)
    ensures Parse(Render(p)) == p
  {
    var j := JoinParts(p.parts);
    ComponentsOfJoin(p.parts);
    if p.rooted {
      var s := "/" + j;
      assert s[1..] == j;
      assert FirstSlash(s) == 0;
      assert s[..0] == "";
    } else if p.parts == [] {
      assert FirstSlash(".") == 1;
      assert "."[..1] == ".";
    } else {
      JoinPartsStartsWithFirst(p.parts);
    }
  }

  lemma RenderInjective(p: PurePath, q: PurePath)
    requires WellFormed(p) && WellFormed(q) && Render(p) == Render(q)
    ensures p == q
  {
    RenderParses(p);
    RenderParses(q);
  }

  lemma {:induction false} JoinPartsEndsWithLast(cs: seq<string>)
    requires |cs| > 0
    ensures EndsWith(JoinParts(cs), cs[|cs| - 1])
    decreases |cs|
  {
    if |cs| == 1 {
      assert JoinParts(cs)[0..] == cs[0];
    } else {
      JoinPartsEndsWithLast(cs[1..]);
      var t := JoinParts(cs[1..]);
      var last := cs[|cs| - 1];
      assert JoinParts(cs) == (cs[0] + "/") + t;
      assert t[|t| - |last|..] == last;
      assert JoinParts(cs)[|JoinParts(cs)| - |last|..] == t[|t| - |last|..];
    }
  }

  /** `str(p)` ends with `p.name`. */
  lemma RenderEndsWithName(p: PurePath)
    requires p.parts != []
    ensures EndsWith(Render(p), Name(p))
  {
    var j := JoinParts(p.parts);
    JoinPartsEndsWithLast(p.parts);
    if p.rooted {
      assert ("/" + j)[|"/" + j| - |Name(p)|..] == j[|j| - |Name(p)|..];
    }
  }

  /** The piece of a split that pathlib keeps. */
  function Keep(head: string): seq<string>
  {
    if head != "" && head != "." then [head] else []
  }

  lemma ComponentsUnfold(s: string)
    requires s != []
    ensures Components(s)
         == Keep(s[..FirstSlash(s)]) + (if FirstSlash(s) < |s| then Components(s[FirstSlash(s) + 1..]) else [])
  {
  }

  lemma NoSlashComponents(a: string)
    requires '/' !in a
    ensures Components(a) == Keep(a)
  {
    if a != [] {
      FirstSlashPast(a, "");
      assert a + "" == a;
      assert a[..|a|] == a;
      ComponentsUnfold(a);
    }
  }

  lemma ComponentsAppendNoSlash(a: string, b: string)
    requires '/' !in a
    ensures Components(a + "/" + b) == Components(a) + Components(b)
  {
    var s := a + "/" + b;
    FirstSlashPast(a, "/" + b);
    assert s == a + ("/" + b);
    assert FirstSlash(s) == |a|;
    assert s[..|a|] == a;
    assert s[|a| + 1..] == b;
    ComponentsUnfold(s);
    NoSlashComponents(a);
  }

  lemma {:induction false} ComponentsAppend(a: string, b: string)
    ensures Components(a + "/" + b) == Components(a) + Components(b)
    decreases |a|
  {
    if '/' !in a {
      ComponentsAppendNoSlash(a, b);
    } else {
      var j := FirstSlash(a);
      SlashFound(a);
      var tail := a[j + 1..];
      ComponentsAppendSplit(a, b, j);
      ComponentsAppend(tail, b);
      ComponentsUnfold(a);
      AppendGlue(Components(a + "/" + b), Components(a), Components(tail + "/" + b), Components(tail), Components(b), Keep(a[..j]));
    }
  }

  lemma AppendGlue<T>(whole: seq<T>, left: seq<T>, wholeRest: seq<T>, leftRest: seq<T>, right: seq<T>, head: seq<T>)
    requires whole == head + wholeRest && wholeRest == leftRest + right && left == head + leftRest
    ensures whole == left + right
  {
  }

  lemma SlashFound(a: string)
    requires '/' in a
    ensures FirstSlash(a) < |a|
  {
    var k :| 0 <= k < |a| && a[k] == '/';
    assert FirstSlash(a) <= k;
  }

  lemma ComponentsAppendSplit(a: string, b: string, j: nat)
    requires j == FirstSlash(a) < |a|
    ensures Components(a + "/" + b) == Keep(a[..j]) + Components(a[j + 1..] + "/" + b)
  {
    var s := a + "/" + b;
    FirstSlashWithin(a, "/" + b);
    assert s == a + ("/" + b);
    assert s[..j] == a[..j];
    assert s[j + 1..] == a[j + 1..] + "/" + b;
    ComponentsUnfold(s);
  }

  /** Joining a directory and a single component and parsing the result appends the component. */
  lemma ParseJoin(dir: string, n: string)
    requires IsComponent(n)
    ensures Parse(OsJoin(dir, n)) == PurePath(Parse(dir).rooted, Parse(dir).parts + [n])
  {
    SingleComponent(n);
    assert n[0] != '/' by { assert n[0] in n; }
    if dir == "" {
      assert OsJoin(dir, n) == n;
    } else if dir[|dir| - 1] == '/' {
      var d := dir[..|dir| - 1];
      assert dir + n == d + "/" + n;
      assert dir == d + "/" + "";
      ComponentsAppend(d, n);
      ComponentsAppend(d, "");
    } else {
      ComponentsAppend(dir, n);
    }
  }

  // ---------------------------------------------------------------------------
  // Names, stems and suffixes

  lemma StemIsPrefix(name: string)
    ensures |Stem(name)| <= |name| && Stem(name) == name[..|Stem(name)|]
    ensures name != "" ==> Stem(name) != ""
  {
  }

  /** A name is its stem followed by its suffix. */
  lemma StemAndSuffix(name: string)
    ensures Stem(name) + Suffix(name) == name
  {
    var i := LastDot(name);
    if 0 < i < |name| - 1 {
      assert name[..i] + name[i..] == name;
    }
  }

  lemma {:induction false} LastDotAfter(s: string, t: string)
    requires '.' !in t
    ensures LastDot(s + t) == LastDot(s)
    decreases |t|
  {
    if t == [] {
      assert s + t == s;
    } else {
      assert (s + t)[..|s + t| - 1] == s + t[..|t| - 1];
      assert (s + t)[|s + t| - 1] == t[|t| - 1];
      assert t[|t| - 1] in t;
      LastDotAfter(s, t[..|t| - 1]);
    }
  }

  /** A stem followed by a simple suffix has that stem and that suffix again. */
  lemma StemOfSimpleSuffix(stem: string, s: string)
    requires stem != "" && SimpleSuffix(s)
    ensures LastDot(stem + s) == |stem|
    ensures Stem(stem + s) == stem && Suffix(stem + s) == s
  {
    assert stem + s == (stem + ".") + s[1..];
    LastDotAfter(stem + ".", s[1..]);
    assert (stem + s)[..|stem|] == stem;
    assert (stem + s)[|stem|..] == s;
  }

  /** The name `with_suffix` builds from a non-empty name and a non-empty valid suffix is a component again. */
  lemma RenamedIsComponent(name: string, suffix: string)
    requires IsComponent(name) && ValidSuffix(suffix) && suffix != ""
    ensures IsComponent(Stem(name) + suffix)
  {
    StemIsPrefix(name);
    var st := Stem(name);
    forall k | 0 <= k < |st + suffix|
      ensures (st + suffix)[k] != '/'
    {
      if k < |st| {
        assert (st + suffix)[k] == name[k];
        assert name[k] in name;
      } else {
        assert (st + suffix)[k] == suffix[k - |st|];
        assert suffix[k - |st|] in suffix;
      }
    }
  }

  /**
   * `str(Path(path).with_suffix(suffix))` describes the same path as `Path(path).with_suffix(suffix)`
   * once parsed again: same root, same parent, name = stem + suffix.
   */
  lemma ReplaceSuffixParses(path: string, suffix: string)
    requires ValidSuffix(suffix) && suffix != ""
    requires ReplaceSuffix(path, suffix).Success?
    ensures Parse(ReplaceSuffix(path, suffix).value) == WithSuffix(Parse(path), suffix).value
    ensures Name(Parse(path)) != ""
    ensures Parse(ReplaceSuffix(path, suffix).value).parts
         == ParentParts(Parse(path)) + [Stem(Name(Parse(path))) + suffix]
  {
    var p := Parse(path);
    var q := WithSuffix(p, suffix).value;
    RenamedIsComponent(Name(p), suffix);
    assert q.parts == ParentParts(q) + [Name(q)];
    assert WellFormed(q);
    RenderParses(q);
  }

  /** `with_suffix` succeeds with any non-empty valid suffix exactly when the path has a name. */
  lemma ReplaceSuffixSucceeds(path: string, suffix: string, other: string)
    requires ValidSuffix(suffix) && ValidSuffix(other)
    ensures ReplaceSuffix(path, suffix).Success? <==> Name(Parse(path)) != ""
    ensures ReplaceSuffix(path, suffix).Success? <==> ReplaceSuffix(path, other).Success?
  {
  }

  /** The rendered result ends with the suffix that was put on. */
  lemma ReplaceSuffixEndsWith(path: string, suffix: string)
    requires ValidSuffix(suffix) && suffix != ""
    requires ReplaceSuffix(path, suffix).Success?
    ensures EndsWith(ReplaceSuffix(path, suffix).value, suffix)
  {
    var q := WithSuffix(Parse(path), suffix).value;
    var stem := Stem(Name(Parse(path)));
    assert Name(q) == stem + suffix;
    RenderEndsWithName(q);
    EndsWithAppended(stem, suffix);
    EndsWithTransitive(Render(q), Name(q), suffix);
  }

  /**
   * Two simple suffixes put on the same path give paths with the same root, the same
   * parent, the same stem, and names that differ exactly when the suffixes differ.
   */
  lemma SiblingsShareStem(path: string, s1: string, s2: string)
    requires SimpleSuffix(s1) && SimpleSuffix(s2)
    requires ReplaceSuffix(path, s1).Success?
    ensures ReplaceSuffix(path, s2).Success?
    ensures var p1 := Parse(ReplaceSuffix(path, s1).value);
            var p2 := Parse(ReplaceSuffix(path, s2).value);
            p1.rooted == p2.rooted == Parse(path).rooted
            && ParentParts(p1) == ParentParts(p2) == ParentParts(Parse(path))
            && Stem(Name(p1)) == Stem(Name(p2)) == Stem(Name(Parse(path)))
            && (ReplaceSuffix(path, s1).value == ReplaceSuffix(path, s2).value <==> s1 == s2)
  {
    ReplaceSuffixParses(path, s1);
    ReplaceSuffixParses(path, s2);
    var stem := Stem(Name(Parse(path)));
    StemIsPrefix(Name(Parse(path)));
    StemOfSimpleSuffix(stem, s1);
    StemOfSimpleSuffix(stem, s2);
    var p1 := Parse(ReplaceSuffix(path, s1).value);
    var p2 := Parse(ReplaceSuffix(path, s2).value);
    assert Name(p1) == stem + s1;
    assert Name(p2) == stem + s2;
    if ReplaceSuffix(path, s1).value == ReplaceSuffix(path, s2).value {
      assert stem + s1 == stem + s2;
      assert s1 == (stem + s1)[|stem|..];
    }
  }

  /**
   * Putting a suffix on the sibling of a path gives the same path as putting it on the
   * path itself: `x/name.glb` -> `x/name.stl` -> `x/name.repaired.stl`.
   */
  lemma RenamedSibling(path: string, suffix: string, other: string)
    requires SimpleSuffix(suffix) && ValidSuffix(other) && other != ""
    requires ReplaceSuffix(path, suffix).Success?
    ensures ReplaceSuffix(ReplaceSuffix(path, suffix).value, other) == ReplaceSuffix(path, other)
  {
    var sib := ReplaceSuffix(path, suffix).value;
    var p := Parse(path);
    var ps := Parse(sib);
    SiblingParse(path, suffix);
    var a := WithSuffix(ps, other).value;
    var b := WithSuffix(p, other).value;
    assert a.parts == ParentParts(a) + [Name(a)];
    assert b.parts == ParentParts(b) + [Name(b)];
    assert a == b;
  }

  lemma SiblingParse(path: string, suffix: string)
    requires SimpleSuffix(suffix)
    requires ReplaceSuffix(path, suffix).Success?
    ensures var ps := Parse(ReplaceSuffix(path, suffix).value);
            ps.rooted == Parse(path).rooted && ParentParts(ps) == ParentParts(Parse(path))
            && ps.parts != [] && Name(ps) != "" && Stem(Name(ps)) == Stem(Name(Parse(path)))
  {
    ReplaceSuffixParses(path, suffix);
    var stem := Stem(Name(Parse(path)));
    StemIsPrefix(Name(Parse(path)));
    StemOfSimpleSuffix(stem, suffix);
  }
}
