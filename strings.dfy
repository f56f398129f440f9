/** Small facts about strings used by the messages and paths of the converter. */
module Strings {

  predicate EndsWith(s: string, tail: string)
  {
    |tail| <= |s| && s[|s| - |tail|..] == tail
  }

  predicate StartsWith(s: string, head: string)
  {
    |head| <= |s| && s[..|head|] == head
  }

  lemma EndsWithAppended(s: string, tail: string)
    ensures EndsWith(s + tail, tail)
  {
    assert (s + tail)[|s|..] == tail;
  }

  /** Ending in a string that ends in `tail` means ending in `tail`. */
  lemma EndsWithTransitive(s: string, mid: string, tail: string)
    requires EndsWith(s, mid) && EndsWith(mid, tail)
    ensures EndsWith(s, tail)
  {
    assert s[|s| - |tail|..] == s[|s| - |mid|..][|mid| - |tail|..];
  }

  /** A path ending in ".py" never ends in ".stl": their last letters differ. */
  lemma EndingsDiffer(s: string, t: string)
    requires EndsWith(s, ".py") && EndsWith(t, ".stl")
    ensures s != t
  {
    assert s[|s| - 1] == s[|s| - 3..][2] == 'y';
    assert t[|t| - 1] == t[|t| - 4..][3] == 'l';
  }

  /** A path ending in ".py" never ends in ".step": their last letters differ. */
  lemma ScriptIsNotStep(s: string, t: string)
    requires EndsWith(s, ".py") && EndsWith(t, ".step")
    ensures s != t
  {
    assert s[|s| - 1] == s[|s| - 3..][2] == 'y';
    assert t[|t| - 1] == t[|t| - 5..][4] == 'p';
  }

  function DigitChar(d: nat): char
    requires d < 10
  {
    "0123456789"[d]
  }

  /** Python's `str(n)` for a natural number. */
  function NatToString(n: nat): (s: string)
    ensures |s| > 0
    ensures forall k | 0 <= k < |s| :: '0' <= s[k] <= '9'
    decreases n
  {
    if n < 10 then [DigitChar(n)] else NatToString(n / 10) + [DigitChar(n % 10)]
  }
}
