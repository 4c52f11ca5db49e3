/** The part of Python's `str` that the application relies on: substring
    membership (`sep in s`), `str.find`, `str.split(sep)` with an explicit
    separator, and, as its partners, `sep.join(parts)` and `str.count(sep)`. */
module PyStr {

  datatype Option<+T> = None | Some(value: T)

  /** `sep` occurs in `s` starting at index `i`. */
  predicate Occurs(s: string, sep: string, i: int)
  {
    0 <= i && i + |sep| <= |s| && s[i..i + |sep|] == sep
  }

  /** Python's `sep in s`. */
  predicate Contains(s: string, sep: string)
  {
    exists i | 0 <= i <= |s| :: Occurs(s, sep, i)
  }

  /** Whatever is concatenated around a string, the result contains it. */
  lemma ContainsInfix(a: string, b: string, c: string)
    ensures Contains(a + b + c, b)
  {
    var s := a + b + c;
    assert s[|a|..|a| + |b|] == b;
    assert Occurs(s, b, |a|);
  }

  /** Containment survives concatenation on either side. */
  lemma ContainsWithin(a: string, x: string, c: string, b: string)
    requires Contains(x, b)
    ensures Contains(a + x + c, b)
  {
    var i :| 0 <= i <= |x| && Occurs(x, b, i);
    var s := a + x + c;
    assert s[|a| + i..|a| + i + |b|] == x[i..i + |b|];
    assert Occurs(s, b, |a| + i);
  }

  /** The first `k` segments joined, spelled out for three. */
  lemma JoinThree(parts: seq<string>, sep: string)
    requires |parts| >= 3
    ensures Join(parts[..3], sep) == parts[0] + sep + parts[1] + sep + parts[2]
  {
    var t := parts[..3];
    assert t[1..][1..] == [parts[2]];
    assert Join(t[1..], sep) == parts[1] + sep + parts[2];
    assert Join(t, sep) == parts[0] + sep + (parts[1] + sep + parts[2]);
  }

  /** Python's `s.find(sep, k)`: the lowest index at or after `k` where `sep`
      occurs (None stands for Python's -1). */
  function FindFrom(s: string, sep: string, k: nat): (r: Option<nat>)
    requires k <= |s|
    ensures r.Some? ==> k <= r.value && Occurs(s, sep, r.value)
    ensures forall j :: k <= j && (r.None? || j < r.value) ==> !Occurs(s, sep, j)
    decreases |s| - k
  {
    if k + |sep| > |s| then None
    else if s[k..k + |sep|] == sep then Some(k)
    else FindFrom(s, sep, k + 1)
  }

  /** Python's `s.find(sep)`. */
  function Find(s: string, sep: string): (r: Option<nat>)
    ensures r.Some? ==> Occurs(s, sep, r.value)
    ensures r.None? <==> !Contains(s, sep)
    ensures forall j :: 0 <= j && (r.None? || j < r.value) ==> !Occurs(s, sep, j)
  {
    FindFrom(s, sep, 0)
  }

  /** Python's `s.split(sep)` for a non-empty `sep` (an empty one raises
      ValueError): cut at the leftmost occurrence, then split the rest, so
      occurrences are matched left to right and never overlap. */
  function Split(s: string, sep: string): (parts: seq<string>)
    requires sep != []
    ensures |parts| >= 1
    ensures forall k :: 0 <= k < |parts| ==> !Contains(parts[k], sep)
    decreases |s|
  {
    match Find(s, sep)
    case None => [s]
    case Some(i) =>
      PrefixBeforeFirstMatch(s, sep, i);
      [s[..i]] + Split(s[i + |sep|..], sep)
  }

  /** The text before the leftmost occurrence holds no occurrence. */
  lemma PrefixBeforeFirstMatch(s: string, sep: string, i: nat)
    requires sep != []
    requires Occurs(s, sep, i)
    requires forall j :: 0 <= j < i ==> !Occurs(s, sep, j)
    ensures !Contains(s[..i], sep)
  {
    forall j | Occurs(s[..i], sep, j)
      ensures false
    {
      assert s[..i][j..j + |sep|] == s[j..j + |sep|];
      assert Occurs(s, sep, j);
    }
  }

  /** Python's `sep.join(parts)`. */
  function Join(parts: seq<string>, sep: string): string
  {
    if |parts| == 0 then ""
    else if |parts| == 1 then parts[0]
    else parts[0] + sep + Join(parts[1..], sep)
  }

  /** Python's `s.count(sep)` for a non-empty `sep`: occurrences counted
      scanning left to right, skipping past each one found. */
  function CountOccurrences(s: string, sep: string): (n: nat)
    requires sep != []
    ensures n * |sep| <= |s|
    decreases |s|
  {
    if |s| < |sep| then 0
    else if s[..|sep|] == sep then 1 + CountOccurrences(s[|sep|..], sep)
    else CountOccurrences(s[1..], sep)
  }

  /** `p` followed by `sep` first matches `sep` exactly where `sep` was
      appended: what every segment but the last looks like in a split. */
  predicate EndsAtFirstMatch(p: string, sep: string)
  {
    forall j :: 0 <= j < |p| ==> !Occurs(p + sep, sep, j)
  }

  /** The shape of every result of `Split`: at least one segment, none but the
      last ends early in a match, and the last holds no match. */
  predicate SplitShaped(parts: seq<string>, sep: string)
  {
    && |parts| >= 1
    && !Contains(parts[|parts| - 1], sep)
    && forall k :: 0 <= k < |parts| - 1 ==> EndsAtFirstMatch(parts[k], sep)
  }

  /** Joining the segments of a split with the separator gives back the text. */
  lemma {:induction false} JoinSplit(s: string, sep: string)
    requires sep != []
    ensures Join(Split(s, sep), sep) == s
    decreases |s|
  {
    if Find(s, sep).Some? {
      var i := Find(s, sep).value;
      var rest := s[i + |sep|..];
      var tail := Split(rest, sep);
      JoinSplit(rest, sep);
      var parts := Split(s, sep);
      assert parts == [s[..i]] + tail;
      assert parts[1..] == tail;
      assert Join(parts, sep) == s[..i] + sep + Join(tail, sep);
      assert s[i..i + |sep|] == sep;
      assert s == s[..i] + s[i..i + |sep|] + rest;
    }
  }

  /** Every split is split-shaped. */
  lemma {:induction false} SplitIsShaped(s: string, sep: string)
    requires sep != []
    ensures SplitShaped(Split(s, sep), sep)
    decreases |s|
  {
    match Find(s, sep)
    case None =>
    case Some(i) =>
      var rest := s[i + |sep|..];
      SplitIsShaped(rest, sep);
      var parts := Split(s, sep);
      assert parts == [s[..i]] + Split(rest, sep);
      FirstSegmentEndsAtFirstMatch(s, sep, i);
      forall k | 0 <= k < |parts| - 1
        ensures EndsAtFirstMatch(parts[k], sep)
      {
        if k > 0 {
          assert parts[k] == Split(rest, sep)[k - 1];
        }
      }
  }

  /** The text before the leftmost occurrence ends at its first match. */
  lemma FirstSegmentEndsAtFirstMatch(s: string, sep: string, i: nat)
    requires Occurs(s, sep, i)
    requires forall j :: 0 <= j < i ==> !Occurs(s, sep, j)
    ensures EndsAtFirstMatch(s[..i], sep)
  {
    var t := s[..i] + sep;
    assert t == s[..i + |sep|];
    forall j | 0 <= j < i
      ensures !Occurs(t, sep, j)
    {
      if Occurs(t, sep, j) {
        assert t[j..j + |sep|] == s[j..j + |sep|];
        assert Occurs(s, sep, j);
      }
    }
  }

  /** Splitting a joined, split-shaped list of segments gives the segments
      back: together with JoinSplit and SplitIsShaped, `Split(s, sep)` is the
      only split-shaped list that joins to `s`. */
  lemma {:induction false} SplitJoin(parts: seq<string>, sep: string)
    requires sep != []
    requires SplitShaped(parts, sep)
    ensures Split(Join(parts, sep), sep) == parts
    decreases |parts|
  {
    if |parts| == 1 {
      assert Find(parts[0], sep).None?;
    } else {
      var p := parts[0];
      var tail := parts[1..];
      ShapedTail(parts, sep);
      SplitJoin(tail, sep);
      var rest := Join(tail, sep);
      var s := p + sep + rest;
      assert Join(parts, sep) == s;
      FirstMatchAfterSegment(p, sep, rest);
      SplitAtFirst(s, sep, |p|);
      assert s[..|p|] == p;
      assert s[|p| + |sep|..] == rest;
      assert parts == [p] + tail;
    }
  }

  /** Dropping the first segment keeps the shape. */
  lemma ShapedTail(parts: seq<string>, sep: string)
    requires SplitShaped(parts, sep) && |parts| >= 2
    ensures SplitShaped(parts[1..], sep)
  {
    var tail := parts[1..];
    forall k | 0 <= k < |tail| - 1
      ensures EndsAtFirstMatch(tail[k], sep)
    {
      assert tail[k] == parts[k + 1];
    }
  }

  /** A split cuts at the leftmost match and splits what follows it. */
  lemma SplitAtFirst(s: string, sep: string, i: nat)
    requires sep != []
    requires Find(s, sep) == Some(i)
    ensures Split(s, sep) == [s[..i]] + Split(s[i + |sep|..], sep)
  {
  }

  /** A segment that ends at its first match, followed by the separator, is
      cut exactly there. */
  lemma FirstMatchAfterSegment(p: string, sep: string, rest: string)
    requires EndsAtFirstMatch(p, sep)
    ensures Find(p + sep + rest, sep) == Some(|p|)
  {
    var s := p + sep + rest;
    forall j | 0 <= j < |p|
      ensures !Occurs(s, sep, j)
    {
      if Occurs(s, sep, j) {
        assert s[j..j + |sep|] == (p + sep)[j..j + |sep|];
        assert Occurs(p + sep, sep, j);
      }
    }
    assert s[|p|..|p| + |sep|] == sep;
    assert Occurs(s, sep, |p|);
  }

  /** No occurrence before index `i` means counting from `i` loses nothing. */
  lemma {:induction false} CountSkipsNonMatches(s: string, sep: string, i: nat)
    requires sep != []
    requires i <= |s|
    requires forall j :: 0 <= j < i ==> !Occurs(s, sep, j)
    ensures CountOccurrences(s, sep) == CountOccurrences(s[i..], sep)
    decreases i
  {
    if i > 0 && |s| >= |sep| {
      assert !Occurs(s, sep, 0);
      forall j | 0 <= j < i - 1
        ensures !Occurs(s[1..], sep, j)
      {
        if Occurs(s[1..], sep, j) {
          assert s[1..][j..j + |sep|] == s[j + 1..j + 1 + |sep|];
          assert Occurs(s, sep, j + 1);
        }
      }
      CountSkipsNonMatches(s[1..], sep, i - 1);
      assert s[1..][i - 1..] == s[i..];
    }
  }

  /** The number of segments is one more than the number of occurrences. */
  lemma {:induction false} SplitLength(s: string, sep: string)
    requires sep != []
    ensures |Split(s, sep)| == CountOccurrences(s, sep) + 1
    decreases |s|
  {
    if Find(s, sep).Some? {
      var i := Find(s, sep).value;
      var rest := s[i + |sep|..];
      SplitLength(rest, sep);
      assert |Split(s, sep)| == 1 + |Split(rest, sep)|;
      CountSkipsNonMatches(s, sep, i);
      CountAtMatch(s[i..], sep);
      assert s[i..][|sep|..] == rest;
    } else {
      CountSkipsNonMatches(s, sep, |s|);
      assert s[|s|..] == [];
    }
  }

  /** A match at the front is counted and skipped. */
  lemma CountAtMatch(s: string, sep: string)
    requires sep != []
    requires Occurs(s, sep, 0)
    ensures CountOccurrences(s, sep) == 1 + CountOccurrences(s[|sep|..], sep)
  {
    assert s[..|sep|] == s[0..|sep|];
  }

  /** Occurrences are counted exactly when there is one. */
  lemma CountZeroIffAbsent(s: string, sep: string)
    requires sep != []
    ensures CountOccurrences(s, sep) == 0 <==> !Contains(s, sep)
  {
    SplitLength(s, sep);
    if Find(s, sep).Some? {
      var i := Find(s, sep).value;
      assert Split(s, sep) == [s[..i]] + Split(s[i + |sep|..], sep);
    }
  }

  /** Joining the first `k` segments gives a prefix of joining them all. */
  lemma {:induction false} JoinPrefix(parts: seq<string>, sep: string, k: nat)
    requires 1 <= k <= |parts|
    ensures Join(parts[..k], sep) <= Join(parts, sep)
    decreases k
  {
    if k > 1 {
      JoinPrefix(parts[1..], sep, k - 1);
      assert parts[..k][1..] == parts[1..][..k - 1];
    }
  }

  /** Python keeps matches non-overlapping: "####" splits at its first "###". */
  lemma SplitOverlapExample()
    ensures Split("####", "###") == ["", "#"]
  {
    var s := "####";
    assert Occurs(s, "###", 0);
    assert Find(s, "###") == Some(0);
    assert s[3..] == "#";
    assert Find("#", "###") == None;
  }
}
