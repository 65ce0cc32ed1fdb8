/**
 * The Python `str` operations the file-name parser relies on: `split` with an
 * explicit separator, `"_".join`, `endswith`, `find`, slicing with a possibly
 * negative upper bound, and `strip()` without arguments.
 */
module PyStrings {

  /** Number of occurrences of `c` in `s`. */
  function Count(s: string, c: char): nat
  {
    if s == [] then 0
    else Count(s[..|s| - 1], c) + (if s[|s| - 1] == c then 1 else 0)
  }

  /** Index of the last occurrence of `c` in `s`, or -1 (Python's `s.rfind(c)`). */
  function LastIndexOf(s: string, c: char): (r: int)
    ensures -1 <= r < |s|
    ensures r >= 0 ==> s[r] == c
    ensures forall j :: r < j < |s| ==> s[j] != c
  {
    if s == [] then -1
    else if s[|s| - 1] == c then |s| - 1
    else LastIndexOf(s[..|s| - 1], c)
  }

  /**
   * Python's `s.split(sep)`: the maximal runs of `s` between separators, empty
   * runs included, so there is always one more part than separators.
   */
  function Split(s: string, sep: char): (parts: seq<string>)
    ensures |parts| == Count(s, sep) + 1
    ensures forall i :: 0 <= i < |parts| ==> sep !in parts[i]
  {
    if s == [] then [[]]
    else
      var init := Split(s[..|s| - 1], sep);
      var c := s[|s| - 1];
      if c == sep then init + [[]]
      else
        var last := init[|init| - 1] + [c];
        assert sep !in last;
        init[..|init| - 1] + [last]
  }

  /** The last part of a split is everything after the last separator. */
  lemma {:induction false} SplitLast(s: string, sep: char)
    ensures Split(s, sep)[|Split(s, sep)| - 1] == s[LastIndexOf(s, sep) + 1..]
  {
    if s != [] {
      var s' := s[..|s| - 1];
      SplitLast(s', sep);
      var c := s[|s| - 1];
      if c != sep {
        assert LastIndexOf(s, sep) == LastIndexOf(s', sep);
        var k := LastIndexOf(s', sep) + 1;
        assert s[k..] == s'[k..] + [c];
      }
    }
  }

  /** Python's `sep.join(parts)`. */
  function Join(parts: seq<string>, sep: char): string
  {
    if parts == [] then []
    else if |parts| == 1 then parts[0]
    else Join(parts[..|parts| - 1], sep) + [sep] + parts[|parts| - 1]
  }

  lemma {:induction false} SplitWithoutSeparator(p: string, sep: char)
    requires sep !in p
    ensures Split(p, sep) == [p]
  {
    if p != [] {
      SplitWithoutSeparator(p[..|p| - 1], sep);
      assert p[..|p| - 1] + [p[|p| - 1]] == p;
    }
  }

  lemma {:induction false} SplitAfterSeparator(x: string, sep: char, p: string)
    requires sep !in p
    ensures Split(x + [sep] + p, sep) == Split(x, sep) + [p]
  {
    if p == [] {
      assert (x + [sep] + p)[..|x + [sep] + p| - 1] == x;
    } else {
      var q := p[..|p| - 1];
      SplitAfterSeparator(x, sep, q);
      assert (x + [sep] + p)[..|x + [sep] + p| - 1] == x + [sep] + q;
      assert q + [p[|p| - 1]] == p;
    }
  }

  /** Splitting undoes joining, when no part contains the separator. */
  lemma {:induction false} SplitJoin(parts: seq<string>, sep: char)
    requires |parts| >= 1
    requires forall i :: 0 <= i < |parts| ==> sep !in parts[i]
    ensures Split(Join(parts, sep), sep) == parts
  {
    if |parts| == 1 {
      SplitWithoutSeparator(parts[0], sep);
    } else {
      var init := parts[..|parts| - 1];
      SplitJoin(init, sep);
      SplitAfterSeparator(Join(init, sep), sep, parts[|parts| - 1]);
      assert init + [parts[|parts| - 1]] == parts;
    }
  }

  /** Joining undoes splitting. */
  lemma {:induction false} JoinSplit(s: string, sep: char)
    ensures Join(Split(s, sep), sep) == s
  {
    if s != [] {
      var s' := s[..|s| - 1];
      var init := Split(s', sep);
      JoinSplit(s', sep);
      assert s' + [s[|s| - 1]] == s;
      if s[|s| - 1] != sep && |init| > 1 {
        var front := init[..|init| - 1];
        var parts := front + [init[|init| - 1] + [s[|s| - 1]]];
        assert parts[..|parts| - 1] == front;
        assert init[..|init| - 1] == front;
      }
    }
  }

  /** Python's `s.endswith(suffix)`. */
  predicate EndsWith(s: string, suffix: string)
  {
    |suffix| <= |s| && s[|s| - |suffix|..] == suffix
  }

  /** `sub` occurs in `s` starting at index `j`. */
  predicate OccursAt(s: string, sub: string, j: int)
  {
    0 <= j && j + |sub| <= |s| && s[j..j + |sub|] == sub
  }

  /** Python's `s.find(sub)`: the lowest index where `sub` occurs, or -1. */
  function Find(s: string, sub: string): (r: int)
    ensures -1 <= r <= |s|
    ensures r >= 0 ==> OccursAt(s, sub, r)
    ensures forall j :: 0 <= j && (r < 0 || j < r) ==> !OccursAt(s, sub, j)
    decreases |s|
  {
    if |s| < |sub| then -1
    else if s[..|sub|] == sub then 0
    else
      var k := Find(s[1..], sub);
      assert !OccursAt(s, sub, 0) by { assert s[0..|sub|] == s[..|sub|]; }
      assert forall j :: 1 <= j ==> (OccursAt(s, sub, j) <==> OccursAt(s[1..], sub, j - 1)) by {
        forall j | 1 <= j
          ensures OccursAt(s, sub, j) <==> OccursAt(s[1..], sub, j - 1)
        {
          if j + |sub| <= |s| {
            assert s[1..][j - 1..j - 1 + |sub|] == s[j..j + |sub|];
          }
        }
      }
      if k < 0 then -1 else k + 1
  }

  /** Python's `s[0:hi]`: a negative bound counts from the end, and bounds are clamped. */
  function SliceTo(s: string, hi: int): (r: string)
    ensures |r| <= |s|
    ensures 0 <= hi <= |s| ==> r == s[..hi]
    ensures hi < 0 ==> |r| == if |s| + hi < 0 then 0 else |s| + hi
    ensures r == s[..|r|]
  {
    if hi < 0 then (if |s| + hi < 0 then [] else s[..|s| + hi])
    else if hi > |s| then s
    else s[..hi]
  }

  /**
   * Python's `str.isspace()` for one character: the code points whose
   * bidirectional class is WS, B or S, or whose category is Zs.
   */
  predicate IsSpace(c: char)
  {
    var n := c as int;
    (0x09 <= n <= 0x0D) || (0x1C <= n <= 0x20) || n == 0x85 || n == 0xA0 ||
    n == 0x1680 || (0x2000 <= n <= 0x200A) || n == 0x2028 || n == 0x2029 ||
    n == 0x202F || n == 0x205F || n == 0x3000
  }

  predicate AllSpace(s: string)
  {
    forall i :: 0 <= i < |s| ==> IsSpace(s[i])
  }

  /** Neither end of `s` is whitespace. */
  predicate Trimmed(s: string)
  {
    s == [] || (!IsSpace(s[0]) && !IsSpace(s[|s| - 1]))
  }

  /** The first index at or after `i` that does not hold whitespace (`|s|` if there is none). */
  function SpaceEnd(s: string, i: nat): (r: nat)
    requires i <= |s|
    ensures i <= r <= |s|
    ensures forall j :: i <= j < r ==> IsSpace(s[j])
    ensures r < |s| ==> !IsSpace(s[r])
    decreases |s| - i
  {
    if i < |s| && IsSpace(s[i]) then SpaceEnd(s, i + 1) else i
  }

  /** The end of `s[lo..hi]` once its trailing whitespace is cut off. */
  function SpaceStart(s: string, lo: nat, hi: nat): (r: nat)
    requires lo <= hi <= |s|
    ensures lo <= r <= hi
    ensures forall j :: r <= j < hi ==> IsSpace(s[j])
    ensures r > lo ==> !IsSpace(s[r - 1])
    decreases hi
  {
    if hi > lo && IsSpace(s[hi - 1]) then SpaceStart(s, lo, hi - 1) else hi
  }

  /**
   * Python's `s.strip()`: `s` with its leading and trailing whitespace
   * removed. The result is a slice of `s` with no whitespace at either end,
   * and only whitespace was cut off on each side.
   */
  function Strip(s: string): (r: string)
    ensures Trimmed(r)
    ensures exists lo, hi :: 0 <= lo <= hi <= |s| && r == s[lo..hi] && AllSpace(s[..lo]) && AllSpace(s[hi..])
  {
    var lo := SpaceEnd(s, 0);
    var hi := SpaceStart(s, lo, |s|);
    assert AllSpace(s[..lo]) && AllSpace(s[hi..]);
    s[lo..hi]
  }

  /** Stripping recovers the core of any whitespace-padded trimmed string. */
  lemma StripPadded(a: string, r: string, b: string)
    requires AllSpace(a) && AllSpace(b) && Trimmed(r)
    ensures Strip(a + r + b) == r
  {
    var s := a + r + b;
    var lo := SpaceEnd(s, 0);
    var hi := SpaceStart(s, lo, |s|);
    if r == [] {
      assert forall j :: 0 <= j < |s| ==> IsSpace(s[j]);
      assert lo == |s| && hi == |s|;
    } else {
      assert s[|a|] == r[0] && s[|a| + |r| - 1] == r[|r| - 1];
      assert forall j :: 0 <= j < |a| ==> IsSpace(s[j]);
      assert lo == |a|;
      assert forall j :: |a| + |r| <= j < |s| ==> IsSpace(s[j]);
      assert hi == |a| + |r|;
      assert s[lo..hi] == r;
    }
  }
}
