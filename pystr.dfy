/**
 * The parts of Python's `str` that the career helpers rely on: the whitespace
 * class of `str.isspace()`, `strip()` with no argument, and, for a non-empty
 * separator, `find`, `split`, `count` and `sep.join`.
 */
module PyStr {
  import opened Wrappers

  /** The line separator `"\n"`. */
  const LineBreak: string := "\n"

  /** The characters for which `str.isspace()` holds; `strip()` removes exactly these. */
  predicate IsSpace(c: char) {
    var n := c as int;
    (0x09 <= n <= 0x0D) || (0x1C <= n <= 0x20) || n == 0x85 || n == 0xA0 || n == 0x1680
    || (0x2000 <= n <= 0x200A) || n == 0x2028 || n == 0x2029 || n == 0x202F || n == 0x205F
    || n == 0x3000
  }

  /** Taking all of a sequence gives the sequence. */
  lemma WholeSlice<T>(s: seq<T>)
    ensures s[..|s|] == s
  {
  }

  /** `s[lo..hi]` is all whitespace. */
  predicate SpaceBetween(s: string, lo: int, hi: int)
    requires 0 <= lo && hi <= |s|
  {
    forall k :: lo <= k < hi ==> IsSpace(s[k])
  }

  predicate AllSpace(s: string) {
    SpaceBetween(s, 0, |s|)
  }

  /** Neither end of `s` is whitespace: what `strip()` leaves behind. */
  predicate Stripped(s: string) {
    s == [] || (!IsSpace(s[0]) && !IsSpace(s[|s| - 1]))
  }

  /** `s` is `t`, found at offset `i`, with whitespace only before and after it. */
  predicate Padding(s: string, i: int, t: string) {
    0 <= i && i + |t| <= |s| && s[i..i + |t|] == t
    && SpaceBetween(s, 0, i) && SpaceBetween(s, i + |t|, |s|)
  }

  /** Removes the leading whitespace (Python's `lstrip()`). */
  function TrimLeft(s: string): (r: string)
    ensures |r| <= |s| && r == s[|s| - |r|..]
    ensures SpaceBetween(s, 0, |s| - |r|)
    ensures r == [] || !IsSpace(r[0])
  {
    if s != [] && IsSpace(s[0]) then
      var r := TrimLeft(s[1..]);
      assert forall k :: 1 <= k < |s| ==> s[k] == s[1..][k - 1];
      r
    else s
  }

  /** Removes the trailing whitespace (Python's `rstrip()`). */
  function TrimRight(s: string): (r: string)
    ensures |r| <= |s| && r == s[..|r|]
    ensures SpaceBetween(s, |r|, |s|)
    ensures r == [] || !IsSpace(r[|r| - 1])
  {
    if s != [] && IsSpace(s[|s| - 1]) then
      var r := TrimRight(s[..|s| - 1]);
      assert forall k :: 0 <= k < |s| - 1 ==> s[k] == s[..|s| - 1][k];
      r
    else s
  }

  /** Where what `strip()` keeps begins in `s`. */
  function Lead(s: string): nat {
    |TrimRight(s)| - |TrimLeft(TrimRight(s))|
  }

  /**
   * Python's `s.strip()`: the result has no whitespace at either end, it
   * occurs in `s` with only whitespace around it, and it is empty exactly
   * when `s` is all whitespace (which is when `if s.strip():` fails).
   */
  function Strip(s: string): (r: string)
    ensures Stripped(r)
    ensures Padding(s, Lead(s), r)
    ensures r == [] <==> AllSpace(s)
  {
    var t := TrimRight(s);
    var r := TrimLeft(t);
    TrimBoth(s, t, r);
    r
  }

  /** What trimming the right and then the left end of `s` leaves, `r`, is `s` stripped. */
  lemma TrimBoth(s: string, t: string, r: string)
    requires |t| <= |s| && t == s[..|t|] && SpaceBetween(s, |t|, |s|)
    requires t == [] || !IsSpace(t[|t| - 1])
    requires |r| <= |t| && r == t[|t| - |r|..] && SpaceBetween(t, 0, |t| - |r|)
    requires r == [] || !IsSpace(r[0])
    ensures Stripped(r)
    ensures Padding(s, |t| - |r|, r)
    ensures r == [] <==> AllSpace(s)
  {
    var i := |t| - |r|;
    SpaceInPrefix(s, t, i);
    SliceOfPrefix(s, t, i);
    if r != [] {
      assert r[|r| - 1] == t[|t| - 1];
      assert s[i] == t[i] == r[0];
    } else {
      TrimAllSpace(s, t);
    }
  }

  lemma SliceOfPrefix(s: string, t: string, i: int)
    requires |t| <= |s| && t == s[..|t|] && 0 <= i <= |t|
    ensures s[i..|t|] == t[i..]
  {
  }

  lemma TrimAllSpace(s: string, t: string)
    requires |t| <= |s| && t == s[..|t|] && SpaceBetween(s, |t|, |s|) && SpaceBetween(t, 0, |t|)
    ensures AllSpace(s)
  {
    SpaceInPrefix(s, t, |t|);
    SpaceAdjacent(s, 0, |t|, |s|);
  }

  lemma SpaceInPrefix(s: string, t: string, i: int)
    requires |t| <= |s| && t == s[..|t|] && 0 <= i <= |t| && SpaceBetween(t, 0, i)
    ensures SpaceBetween(s, 0, i)
  {
    forall k | 0 <= k < i ensures IsSpace(s[k]) {
      assert s[k] == t[k];
    }
  }

  lemma SpaceAdjacent(s: string, lo: int, mid: int, hi: int)
    requires 0 <= lo <= mid <= hi <= |s| && SpaceBetween(s, lo, mid) && SpaceBetween(s, mid, hi)
    ensures SpaceBetween(s, lo, hi)
  {
  }

  /**
   * `strip()` is fully determined by its two defining properties: whatever
   * whitespace surrounds a string with no whitespace at its ends, `strip()`
   * returns that string.
   */
  lemma StripUnique(s: string, i: int, t: string)
    requires Padding(s, i, t) && Stripped(t)
    ensures Strip(s) == t
  {
    if t != [] {
      PaddingEnds(s, i, t);
      PaddingUnique(s, i, t, Lead(s), Strip(s));
    } else {
      SpaceAdjacent(s, 0, i, |s|);
    }
  }

  lemma PaddingEnds(s: string, i: int, t: string)
    requires Padding(s, i, t) && t != []
    ensures s[i] == t[0] && s[i + |t| - 1] == t[|t| - 1]
  {
    assert s[i..i + |t|][0] == s[i];
    assert s[i..i + |t|][|t| - 1] == s[i + |t| - 1];
  }

  /** Two non-empty strings without whitespace at their ends, each padded to `s`, are the same. */
  lemma PaddingUnique(s: string, i: int, t: string, j: int, r: string)
    requires Padding(s, i, t) && Stripped(t) && t != []
    requires Padding(s, j, r) && Stripped(r)
    ensures j == i && r == t
  {
    PaddingEnds(s, i, t);
    if r == [] {
      SpaceAdjacent(s, 0, j, |s|);
      assert false;
    } else {
      PaddingEnds(s, j, r);
      assert i == j;
      assert i + |t| == j + |r|;
    }
  }

  /** A string is left unchanged by `strip()` exactly when it has no whitespace at its ends. */
  lemma StripFixpoint(s: string)
    ensures Strip(s) == s <==> Stripped(s)
  {
    if Stripped(s) {
      assert Padding(s, 0, s);
      StripUnique(s, 0, s);
    }
  }

  /** Stripping twice is stripping once. */
  lemma StripIdempotent(s: string)
    ensures Strip(Strip(s)) == Strip(s)
  {
    StripFixpoint(Strip(s));
  }

  lemma AllSpaceConcat(a: string, b: string)
    requires AllSpace(a) && AllSpace(b)
    ensures AllSpace(a + b)
  {
    assert forall k :: 0 <= k < |a| ==> (a + b)[k] == a[k];
    assert forall k :: |a| <= k < |a + b| ==> (a + b)[k] == b[k - |a|];
  }

  /** Whitespace-only text on both sides of `t` is padding. */
  lemma PaddingOf(a: string, t: string, b: string)
    requires AllSpace(a) && AllSpace(b)
    ensures Padding(a + t + b, |a|, t)
  {
    var x := a + t + b;
    assert forall k :: 0 <= k < |a| ==> x[k] == a[k];
    assert forall k :: |a| + |t| <= k < |x| ==> x[k] == b[k - |a| - |t|];
    assert x[|a|..|a| + |t|] == t;
  }

  lemma SpacePrefix(s: string, i: int)
    requires 0 <= i <= |s| && SpaceBetween(s, 0, i)
    ensures AllSpace(s[..i])
  {
  }

  lemma SpaceSuffix(s: string, j: int)
    requires 0 <= j <= |s| && SpaceBetween(s, j, |s|)
    ensures AllSpace(s[j..])
  {
    assert forall k :: 0 <= k < |s| - j ==> s[j..][k] == s[j + k];
  }

  /** A string padded around `t` is its leading whitespace, `t`, and its trailing whitespace. */
  lemma PaddingSides(s: string, i: int, t: string)
    requires Padding(s, i, t)
    ensures s == s[..i] + t + s[i + |t|..]
    ensures AllSpace(s[..i]) && AllSpace(s[i + |t|..])
  {
    SpacePrefix(s, i);
    SpaceSuffix(s, i + |t|);
    assert s == s[..i] + s[i..i + |t|] + s[i + |t|..];
  }

  /** Regrouping of a five-part concatenation; stated apart, it keeps StripPadded's proof small. */
  lemma Regroup(w1: string, b: string, t: string, a: string, w2: string)
    ensures w1 + (b + t + a) + w2 == (w1 + b) + t + (a + w2)
  {
  }

  /** Whitespace added at either end does not change what `strip()` returns. */
  lemma StripPadded(w1: string, s: string, w2: string)
    requires AllSpace(w1) && AllSpace(w2)
    ensures Strip(w1 + s + w2) == Strip(s)
  {
    var t, i := Strip(s), Lead(s);
    var before, after := s[..i], s[i + |t|..];
    PaddingSides(s, i, t);
    AllSpaceConcat(w1, before);
    AllSpaceConcat(after, w2);
    Regroup(w1, before, t, after, w2);
    PaddingOf(w1 + before, t, after + w2);
    StripUnique(w1 + s + w2, |w1 + before|, t);
  }

  /** Whitespace appended at the end does not change what `strip()` returns. */
  lemma StripTrailing(s: string, w: string)
    requires AllSpace(w)
    ensures Strip(s + w) == Strip(s)
  {
    assert [] + s + w == s + w;
    StripPadded([], s, w);
  }

  /** `sep` occurs in `s` starting at index `j`. */
  predicate OccursAt(s: string, sep: string, j: int) {
    0 <= j && j + |sep| <= |s| && s[j..j + |sep|] == sep
  }

  lemma OccursIndex(s: string, sep: string, j: int, k: int)
    requires OccursAt(s, sep, j) && 0 <= k < |sep|
    ensures s[j + k] == sep[k]
  {
    assert s[j..j + |sep|][k] == s[j + k];
  }

  lemma OccursShiftAt(s: string, sep: string, j: int)
    requires s != [] && 0 <= j
    ensures OccursAt(s[1..], sep, j) <==> OccursAt(s, sep, j + 1)
  {
    if 0 <= j && j + |sep| <= |s| - 1 {
      assert s[1..][j..j + |sep|] == s[j + 1..j + 1 + |sep|];
    }
  }

  /** An occurrence in `s[1..]` is an occurrence in `s`, one index further on. */
  lemma OccursShift(s: string, sep: string)
    requires s != []
    ensures forall j :: 0 <= j ==> (OccursAt(s[1..], sep, j) <==> OccursAt(s, sep, j + 1))
    ensures forall j :: 1 <= j ==> (OccursAt(s, sep, j) <==> OccursAt(s[1..], sep, j - 1))
  {
    forall j | 0 <= j ensures OccursAt(s[1..], sep, j) <==> OccursAt(s, sep, j + 1) {
      OccursShiftAt(s, sep, j);
    }
    forall j | 1 <= j ensures OccursAt(s, sep, j) <==> OccursAt(s[1..], sep, j - 1) {
      OccursShiftAt(s, sep, j - 1);
    }
  }

  /**
   * Python's `s.find(sep)`: the lowest index at which `sep` occurs, or None
   * when it does not occur at all.
   */
  function Find(s: string, sep: string): (r: Option<nat>)
    requires sep != []
    ensures r.Some? ==> OccursAt(s, sep, r.value)
    ensures forall j :: (r.None? || j < r.value) ==> !OccursAt(s, sep, j)
    decreases |s|
  {
    if |s| < |sep| then None
    else if s[..|sep|] == sep then Some(0)
    else
      OccursShift(s, sep);
      match Find(s[1..], sep)
      case None => None
      case Some(i) => Some(i + 1)
  }

  /** Python's `sep.join(pieces)`. */
  function Join(pieces: seq<string>, sep: string): string {
    if |pieces| == 0 then ""
    else if |pieces| == 1 then pieces[0]
    else pieces[0] + sep + Join(pieces[1..], sep)
  }

  /**
   * Python's `s.split(sep)` for a non-empty separator: cut at the leftmost
   * occurrence, then split what follows it. There is always at least one
   * piece, no piece contains the separator, every cut is at the leftmost
   * occurrence of what remains (so the separator first occurs right after
   * each piece but the last), and joining the pieces with the separator gives
   * back `s`.
   */
  function Split(s: string, sep: string): (r: seq<string>)
    requires sep != []
    ensures |r| >= 1
    ensures forall k :: 0 <= k < |r| ==> Find(r[k], sep).None?
    ensures forall k :: 0 <= k < |r| - 1 ==> Find(r[k] + sep, sep) == Some(|r[k]|)
    ensures Join(r, sep) == s
    decreases |s|
  {
    match Find(s, sep)
    case None => [s]
    case Some(i) =>
      var rest := Split(s[i + |sep|..], sep);
      PrefixFree(s, sep, i);
      FindCut(s, sep, i);
      ConsCuts(s[..i], rest, sep);
      CutAround(s, sep, i);
      [s[..i]] + rest
  }

  lemma ConsCuts(first: string, rest: seq<string>, sep: string)
    requires sep != [] && Find(first + sep, sep) == Some(|first|)
    requires forall k :: 0 <= k < |rest| - 1 ==> Find(rest[k] + sep, sep) == Some(|rest[k]|)
    ensures forall k :: 0 <= k < |[first] + rest| - 1 ==>
      Find(([first] + rest)[k] + sep, sep) == Some(|([first] + rest)[k]|)
  {
    forall k | 1 <= k < |[first] + rest| - 1
      ensures Find(([first] + rest)[k] + sep, sep) == Some(|([first] + rest)[k]|)
    {
      assert ([first] + rest)[k] == rest[k - 1];
    }
  }

  /** The leftmost occurrence of `sep` in `s` is also the leftmost in `s` cut right after it. */
  lemma FindCut(s: string, sep: string, i: nat)
    requires sep != [] && Find(s, sep) == Some(i)
    ensures Find(s[..i] + sep, sep) == Some(i)
  {
    var p := s[..i] + sep;
    CutAfter(s, sep, i);
    forall j | j < i ensures !OccursAt(p, sep, j) {
      if OccursAt(p, sep, j) {
        InfixOccurs(s, sep, 0, p, j);
      }
    }
    OccursEnd(s[..i], sep);
    FindIs(p, sep, i);
  }

  lemma CutAfter(s: string, sep: string, i: nat)
    requires OccursAt(s, sep, i)
    ensures s[0..i + |sep|] == s[..i] + sep
  {
    var x, y := s[0..i + |sep|], s[..i] + sep;
    forall k | 0 <= k < |x| ensures x[k] == y[k] {
      if k >= i {
        OccursIndex(s, sep, i, k - i);
      }
    }
  }

  lemma CutAround(s: string, sep: string, i: nat)
    requires OccursAt(s, sep, i)
    ensures s == s[..i] + sep + s[i + |sep|..]
  {
    CutAfter(s, sep, i);
    assert s == s[0..i + |sep|] + s[i + |sep|..];
  }

  lemma OccursEnd(a: string, sep: string)
    ensures OccursAt(a + sep, sep, |a|)
  {
    assert (a + sep)[|a|..|a| + |sep|] == sep;
  }

  lemma PrefixFree(s: string, sep: string, i: nat)
    requires sep != [] && i <= |s|
    requires forall j :: j < i ==> !OccursAt(s, sep, j)
    ensures Find(s[..i], sep).None?
  {
    var f := Find(s[..i], sep);
    if f.Some? {
      assert s[..i][f.value..f.value + |sep|] == s[f.value..f.value + |sep|];
      assert OccursAt(s, sep, f.value);
    }
  }

  /** Python's `s.count(sep)`: non-overlapping occurrences, scanning left to right. */
  function Count(s: string, sep: string): nat
    requires sep != []
    decreases |s|
  {
    if |s| < |sep| then 0
    else if s[..|sep|] == sep then 1 + Count(s[|sep|..], sep)
    else Count(s[1..], sep)
  }

  /** Counting restarts after the leftmost occurrence, as splitting does. */
  lemma {:induction false} CountFind(s: string, sep: string)
    requires sep != []
    ensures Find(s, sep).None? ==> Count(s, sep) == 0
    ensures Find(s, sep).Some? ==> Count(s, sep) == 1 + Count(s[Find(s, sep).value + |sep|..], sep)
    decreases |s|
  {
    if |s| < |sep| {
    } else if s[..|sep|] == sep {
      FindFront(s, sep);
    } else {
      CountFind(s[1..], sep);
      FindSkip(s, sep);
      var f := Find(s[1..], sep);
      if f.Some? {
        DropDrop(s, 1, f.value + |sep|);
      }
    }
  }

  /** Where `s` starts with `sep`, the leftmost occurrence is at 0 and counting goes on after it. */
  lemma FindFront(s: string, sep: string)
    requires sep != [] && |s| >= |sep| && s[..|sep|] == sep
    ensures Find(s, sep) == Some(0)
    ensures Count(s, sep) == 1 + Count(s[|sep|..], sep)
  {
  }

  /** Where `s` does not start with `sep`, searching and counting go on from `s[1..]`. */
  lemma FindSkip(s: string, sep: string)
    requires sep != [] && |s| >= |sep| && s[..|sep|] != sep
    ensures Find(s, sep) == if Find(s[1..], sep).Some? then Some(Find(s[1..], sep).value + 1) else None
    ensures Count(s, sep) == Count(s[1..], sep)
  {
    OccursShift(s, sep);
    assert !OccursAt(s, sep, 0);
    var f := Find(s[1..], sep);
    if f.Some? {
      FindIs(s, sep, f.value + 1);
    }
    CountSkip(s, sep);
  }

  lemma CountSkip(s: string, sep: string)
    requires sep != [] && |s| >= |sep| && s[..|sep|] != sep
    ensures Count(s, sep) == Count(s[1..], sep)
  {
  }

  lemma DropDrop(s: string, i: nat, j: nat)
    requires i + j <= |s|
    ensures s[i..][j..] == s[i + j..]
  {
  }

  /** `len(s.split(sep)) == s.count(sep) + 1`. */
  lemma {:induction false} SplitCount(s: string, sep: string)
    requires sep != []
    ensures |Split(s, sep)| == Count(s, sep) + 1
    decreases |s|
  {
    CountFind(s, sep);
    match Find(s, sep)
    case None =>
    case Some(i) =>
      SplitCount(s[i + |sep|..], sep);
  }

  /** The leftmost occurrence is the one with no occurrence before it. */
  lemma FindIs(s: string, sep: string, k: int)
    requires sep != [] && OccursAt(s, sep, k)
    requires forall j :: j < k ==> !OccursAt(s, sep, j)
    ensures Find(s, sep) == Some(k)
  {
  }

  /** For a one-character separator, an occurrence is just that character. */
  lemma OccursChar(s: string, c: char, j: int)
    ensures OccursAt(s, [c], j) <==> 0 <= j < |s| && s[j] == c
  {
    if 0 <= j < |s| { assert s[j..j + 1] == [s[j]]; }
  }

  lemma FindCharConcat(a: string, c: char, b: string)
    ensures Find(a + [c] + b, [c]) == if Find(a, [c]).Some? then Find(a, [c]) else Some(|a|)
  {
    var x := a + [c] + b;
    var k := if Find(a, [c]).Some? then Find(a, [c]).value else |a|;
    OccursChar(x, c, k);
    if k < |a| { OccursChar(a, c, k); }
    forall j | j < k ensures !OccursAt(x, [c], j) {
      OccursChar(x, c, j);
      OccursChar(a, c, j);
    }
    FindIs(x, [c], k);
  }

  /**
   * Splitting on one character distributes over a concatenation that has
   * that character at the seam.
   */
  lemma {:induction false} SplitCharConcat(a: string, c: char, b: string)
    ensures Split(a + [c] + b, [c]) == Split(a, [c]) + Split(b, [c])
    decreases |a|
  {
    match Find(a, [c])
    case None =>
      SplitCharSeam(a, c, b);
    case Some(i) =>
      SplitCharConcat(a[i + 1..], c, b);
      SplitCharStep(a, c, b, i);
  }

  /** With no `c` in `a`, the first cut of `a + [c] + b` is at the seam. */
  lemma SplitCharSeam(a: string, c: char, b: string)
    requires Find(a, [c]).None?
    ensures Split(a + [c] + b, [c]) == [a] + Split(b, [c])
    ensures Split(a, [c]) == [a]
  {
    var x := a + [c] + b;
    FindCharConcat(a, c, b);
    assert x[..|a|] == a && x[|a| + 1..] == b;
    SplitAt(x, [c], |a|);
  }

  /** With a `c` at `i` in `a`, both splits make the same first cut. */
  lemma SplitCharStep(a: string, c: char, b: string, i: nat)
    requires Find(a, [c]) == Some(i)
    requires Split(a[i + 1..] + [c] + b, [c]) == Split(a[i + 1..], [c]) + Split(b, [c])
    ensures Split(a + [c] + b, [c]) == Split(a, [c]) + Split(b, [c])
  {
    var x := a + [c] + b;
    FindCharConcat(a, c, b);
    CutInFront(a, c, b, i);
    CutInFront(a, c, b, i + 1);
    SplitAt(x, [c], i);
    SplitAt(a, [c], i);
    var p, q := Split(a[i + 1..], [c]), Split(b, [c]);
    assert Split(x, [c]) == [a[..i]] + (p + q);
    ConsAssoc(a[..i], p, q);
  }

  /** Regrouping of a list of parts; stated apart, it keeps SplitCharStep's proof small. */
  lemma ConsAssoc(h: string, p: seq<string>, q: seq<string>)
    ensures [h] + (p + q) == ([h] + p) + q
  {
  }

  /** Cutting `a + [c] + b` inside `a` cuts `a`. */
  lemma CutInFront(a: string, c: char, b: string, i: nat)
    requires i <= |a|
    ensures (a + [c] + b)[..i] == a[..i]
    ensures (a + [c] + b)[i..] == a[i..] + [c] + b
  {
    var x, y := (a + [c] + b)[i..], a[i..] + [c] + b;
    assert |x| == |y|;
    forall k | 0 <= k < |x| ensures x[k] == y[k] {
      if k < |a| - i {
        assert x[k] == a[i + k];
      }
    }
  }

  /** Splitting cuts at the leftmost occurrence and goes on after it. */
  lemma SplitAt(s: string, sep: string, i: nat)
    requires sep != [] && Find(s, sep) == Some(i)
    ensures Split(s, sep) == [s[..i]] + Split(s[i + |sep|..], sep)
  {
  }

  /**
   * For a one-character separator, splitting undoes joining as long as no
   * piece holds the separator: `c.join(ps).split(c) == ps`.
   */
  lemma {:induction false} SplitJoinChar(pieces: seq<string>, c: char)
    requires |pieces| >= 1
    requires forall k :: 0 <= k < |pieces| ==> Find(pieces[k], [c]).None?
    ensures Split(Join(pieces, [c]), [c]) == pieces
    decreases |pieces|
  {
    if |pieces| > 1 {
      SplitCharConcat(pieces[0], c, Join(pieces[1..], [c]));
      SplitJoinChar(pieces[1..], c);
    }
  }

  /** An occurrence in a piece of `s` is an occurrence in `s`. */
  lemma InfixOccurs(s: string, sep: string, i: int, t: string, j: int)
    requires 0 <= i && i + |t| <= |s| && s[i..i + |t|] == t
    requires OccursAt(t, sep, j)
    ensures OccursAt(s, sep, i + j)
  {
    forall k | 0 <= k < |sep| ensures s[i + j + k] == sep[k] {
      assert t[j..j + |sep|][k] == sep[k];
      assert s[i..i + |t|][j + k] == s[i + j + k];
    }
  }

  /** A piece of a string that lacks the separator lacks it too. */
  lemma InfixFree(s: string, sep: string, i: int, t: string)
    requires sep != [] && Find(s, sep).None?
    requires 0 <= i && i + |t| <= |s| && s[i..i + |t|] == t
    ensures Find(t, sep).None?
  {
    var f := Find(t, sep);
    if f.Some? {
      InfixOccurs(s, sep, i, t, f.value);
    }
  }

  /** The ends of a string without the separator are without it too. */
  lemma FreeEnds(s: string, sep: string, i: int, j: int)
    requires sep != [] && Find(s, sep).None? && 0 <= i <= |s| && 0 <= j <= |s|
    ensures Find(s[..i], sep).None? && Find(s[j..], sep).None?
  {
    InfixFree(s, sep, 0, s[..i]);
    InfixFree(s, sep, j, s[j..]);
  }

  /** What `strip()` returns from a string without the separator is without it too. */
  lemma StripFree(s: string, sep: string)
    requires sep != [] && Find(s, sep).None?
    ensures Find(Strip(s), sep).None?
  {
    PaddedFree(s, sep, Lead(s), Strip(s));
  }

  lemma PaddedFree(s: string, sep: string, i: int, t: string)
    requires sep != [] && Find(s, sep).None? && Padding(s, i, t)
    ensures Find(t, sep).None?
  {
    InfixFree(s, sep, i, t);
  }

  /**
   * `s.split(sep)` has exactly two pieces exactly when `sep` occurs once in
   * the sense of `count`; the pieces are then what precedes and what follows
   * the leftmost occurrence.
   */
  lemma SplitTwo(s: string, sep: string)
    requires sep != []
    ensures |Split(s, sep)| == 2 <==> Count(s, sep) == 1
    ensures |Split(s, sep)| == 2 ==>
      Find(s, sep).Some? &&
      Split(s, sep) == [s[..Find(s, sep).value], s[Find(s, sep).value + |sep|..]]
  {
    SplitCount(s, sep);
    match Find(s, sep)
    case None =>
    case Some(i) =>
      var rest := s[i + |sep|..];
      if Find(rest, sep).Some? {
        assert |Split(rest, sep)| >= 2;
      }
  }

  /** Joining one more piece adds the separator and the piece at the end. */
  lemma {:induction false} JoinAppend(pieces: seq<string>, sep: string, p: string)
    requires pieces != []
    ensures Join(pieces + [p], sep) == Join(pieces, sep) + sep + p
    decreases |pieces|
  {
    if |pieces| > 1 {
      assert (pieces + [p])[1..] == pieces[1..] + [p];
      JoinAppend(pieces[1..], sep, p);
    }
  }

  /** Joining non-empty pieces that have no whitespace at their ends gives such a string. */
  lemma {:induction false} JoinStripped(pieces: seq<string>, sep: string)
    requires forall k :: 0 <= k < |pieces| ==> pieces[k] != [] && Stripped(pieces[k])
    ensures Stripped(Join(pieces, sep))
    decreases |pieces|
  {
    if |pieces| > 1 {
      JoinStripped(pieces[1..], sep);
      var rest := Join(pieces[1..], sep);
      assert rest != [] by {
        assert Join(pieces[1..], sep) == pieces[1] || |pieces[1..]| > 1;
      }
    }
  }
}
