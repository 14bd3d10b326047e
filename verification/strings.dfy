/** The Python string primitives the core is built from, on `string` = `seq<char>`:
    `str.find`, `str.split(sep)` for a non-empty `sep`, `str.join`,
    `str.replace` and `str.strip()`. Every other module reuses these. */
module Strings {
  import opened Errors

  /** `t` occurs in `s` starting at index `i`. */
  predicate OccursAt(s: string, t: string, i: int) {
    0 <= i && i + |t| <= |s| && s[i..i + |t|] == t
  }

  /** Python's `t in s`. */
  predicate Contains(s: string, t: string) {
    exists i :: 0 <= i <= |s| - |t| && OccursAt(s, t, i)
  }

  /** `i` is the leftmost occurrence of `t` in `s`. */
  predicate FirstAt(s: string, t: string, i: int) {
    OccursAt(s, t, i) && forall j :: 0 <= j < i ==> !OccursAt(s, t, j)
  }

  /** Python's `s.find(t, from)`, with `None` for -1. */
  function FindFrom(s: string, t: string, from: nat): (r: Option<nat>)
    decreases |s| - from
    ensures r.Some? ==> from <= r.value && OccursAt(s, t, r.value)
    ensures r.Some? ==> forall j :: from <= j < r.value ==> !OccursAt(s, t, j)
    ensures r.None? ==> forall j :: from <= j ==> !OccursAt(s, t, j)
  {
    if |s| < from + |t| then None
    else if s[from..from + |t|] == t then Some(from)
    else FindFrom(s, t, from + 1)
  }

  /** Python's `s.find(t)`: the leftmost occurrence, if any. */
  function Find(s: string, t: string): (r: Option<nat>)
    ensures r.Some? <==> Contains(s, t)
    ensures r.Some? ==> FirstAt(s, t, r.value)
  {
    var r := FindFrom(s, t, 0);
    assert r.Some? ==> OccursAt(s, t, r.value);
    r
  }

  /** The leftmost occurrence is unique, so `Find` returns it. */
  lemma FindFirst(s: string, t: string, i: int)
    requires FirstAt(s, t, i)
    ensures Find(s, t) == Some(i)
  {
    assert Contains(s, t);
  }

  /** Python's `s.split(sep)` for a non-empty `sep`: cut at every occurrence
      found scanning left to right, never overlapping. */
  function Split(s: string, sep: string): (parts: seq<string>)
    requires sep != ""
    decreases |s|
    ensures |parts| >= 1
  {
    match Find(s, sep)
    case None => [s]
    case Some(i) => [s[..i]] + Split(s[i + |sep|..], sep)
  }

  /** Python's `sep.join(parts)`: the result starts with the first part, and
      the separator follows it once there is a second one. */
  function Join(parts: seq<string>, sep: string): (r: string)
    ensures |parts| == 0 ==> r == ""
    ensures |parts| >= 1 ==> parts[0] <= r
    ensures |parts| >= 2 ==> OccursAt(r, sep, |parts[0]|)
  {
    if |parts| == 0 then ""
    else if |parts| == 1 then parts[0]
    else parts[0] + sep + Join(parts[1..], sep)
  }

  /** Python's `s.count(sep)` for a non-empty `sep`: occurrences counted
      greedily from the left, without overlap. */
  function Count(s: string, sep: string): (r: nat)
    requires sep != ""
    decreases |s|
    ensures r == 0 <==> !Contains(s, sep)
  {
    if |s| < |sep| then 0
    else if s[..|sep|] == sep then
      assert OccursAt(s, sep, 0);
      1 + Count(s[|sep|..], sep)
    else
      ContainsPastFirst(s, sep);
      Count(s[1..], sep)
  }

  /** Without an occurrence at the front, `s` contains `t` exactly when its
      tail does. */
  lemma ContainsPastFirst(s: string, t: string)
    requires |s| > 0 && !OccursAt(s, t, 0)
    ensures Contains(s, t) <==> Contains(s[1..], t)
  {
    if Contains(s, t) {
      var j :| 0 <= j <= |s| - |t| && OccursAt(s, t, j);
      assert j > 0;
      assert s[1..][j - 1..j - 1 + |t|] == s[j..j + |t|];
      assert OccursAt(s[1..], t, j - 1);
    }
    if Contains(s[1..], t) {
      var j :| 0 <= j <= |s[1..]| - |t| && OccursAt(s[1..], t, j);
      OccursInTail(s, t, j);
    }
  }

  /** Python's `s.replace(pattern, replacement)` for a non-empty `pattern`. */
  function ReplaceAll(s: string, pattern: string, replacement: string): (r: string)
    requires pattern != ""
    ensures !Contains(s, pattern) ==> r == s
    ensures replacement == pattern ==> r == s
  {
    JoinSplit(s, pattern);
    Join(Split(s, pattern), replacement)
  }

  /** Splitting a string without the separator gives the string alone. */
  lemma SplitNone(s: string, sep: string)
    requires sep != "" && !Contains(s, sep)
    ensures Split(s, sep) == [s]
  {
  }

  /** Splitting at the leftmost occurrence: the text before it, then the split
      of the text after it. */
  lemma SplitAt(s: string, sep: string, i: int)
    requires sep != "" && FirstAt(s, sep, i)
    ensures Split(s, sep) == [s[..i]] + Split(s[i + |sep|..], sep)
    ensures Split(s, sep)[0] == s[..i]
    ensures Split(s, sep)[1..] == Split(s[i + |sep|..], sep)
  {
    FindFirst(s, sep, i);
    var parts := [s[..i]] + Split(s[i + |sep|..], sep);
    assert Split(s, sep) == parts;
    assert parts[1..] == Split(s[i + |sep|..], sep);
  }

  /** With a one-character separator: text free of it splits to itself. */
  lemma SplitCharNone(s: string, c: char)
    requires c !in s
    ensures Split(s, [c]) == [s]
  {
    forall j | 0 <= j < |s|
      ensures !OccursAt(s, [c], j)
    {
      assert s[j..j + 1][0] == s[j];
    }
  }

  /** With a one-character separator: text free of it, then the separator,
      splits off as the first part. */
  lemma SplitCharCons(a: string, c: char, b: string)
    requires c !in a
    ensures Split(a + [c] + b, [c]) == [a] + Split(b, [c])
  {
    var s := a + [c] + b;
    forall j | 0 <= j < |a|
      ensures !OccursAt(s, [c], j)
    {
      assert s[j..j + 1][0] == a[j];
    }
    assert s[|a|..|a| + 1] == [c];
    SplitAt(s, [c], |a|);
    assert s[..|a|] == a && s[|a| + 1..] == b;
  }

  /** The other round trip, for a one-character separator: splitting the
      join of parts free of it gives the parts back. */
  lemma {:induction false} SplitJoinChar(parts: seq<string>, c: char)
    requires |parts| >= 1
    requires forall k :: 0 <= k < |parts| ==> c !in parts[k]
    ensures Split(Join(parts, [c]), [c]) == parts
    decreases |parts|
  {
    if |parts| == 1 {
      SplitCharNone(parts[0], c);
    } else {
      var tail := Join(parts[1..], [c]);
      SplitJoinChar(parts[1..], c);
      assert [parts[0]] + parts[1..] == parts;
      JoinCons(parts[0], parts[1..], [c]);
      assert Join(parts, [c]) == parts[0] + [c] + tail;
      SplitCharCons(parts[0], c, tail);
      assert Split(Join(parts, [c]), [c]) == [parts[0]] + parts[1..];
    }
  }

  /** A split has at least two parts exactly when the separator occurs. */
  lemma SplitLength(s: string, sep: string)
    requires sep != ""
    ensures |Split(s, sep)| >= 2 <==> Contains(s, sep)
  {
  }

  /** Round trip: joining the parts with the separator gives back the input. */
  lemma {:induction false} JoinSplit(s: string, sep: string)
    requires sep != ""
    ensures Join(Split(s, sep), sep) == s
    decreases |s|
  {
    match Find(s, sep)
    case None =>
    case Some(i) =>
      var head, rest := s[..i], s[i + |sep|..];
      SplitAt(s, sep, i);
      JoinSplit(rest, sep);
      JoinCons(head, Split(rest, sep), sep);
      SliceAround(s, sep, i);
  }

  /** A string is the text before an occurrence, the occurrence, and the text after. */
  lemma SliceAround(s: string, t: string, i: int)
    requires OccursAt(s, t, i)
    ensures s == s[..i] + t + s[i + |t|..]
  {
    assert s == s[..i] + s[i..i + |t|] + s[i + |t|..];
  }

  /** Joining a first part in front of a non-empty list of parts. */
  lemma JoinCons(head: string, tail: seq<string>, sep: string)
    requires |tail| >= 1
    ensures Join([head] + tail, sep) == head + sep + Join(tail, sep)
  {
    assert ([head] + tail)[1..] == tail;
  }

  /** An occurrence inside a prefix is an occurrence in the whole string. */
  lemma OccursInPrefix(s: string, t: string, n: int, j: int)
    requires 0 <= n <= |s| && OccursAt(s[..n], t, j)
    ensures OccursAt(s, t, j)
  {
    assert s[..n][j..j + |t|] == s[j..j + |t|];
  }

  /** An occurrence lying within the first `n` characters occurs in that prefix. */
  lemma OccursInPrefixBack(s: string, t: string, n: int, j: int)
    requires 0 <= n <= |s| && OccursAt(s, t, j) && j + |t| <= n
    ensures OccursAt(s[..n], t, j)
  {
    assert s[..n][j..j + |t|] == s[j..j + |t|];
  }

  /** The first part of a split is the text up to the leftmost occurrence, or
      all of it. */
  lemma SplitHead(s: string, sep: string) returns (f: int)
    requires sep != ""
    ensures 0 <= f <= |s| && Split(s, sep)[0] == s[..f]
    ensures f == |s| || OccursAt(s, sep, f)
    ensures forall j :: 0 <= j < f ==> !OccursAt(s, sep, j)
  {
    match Find(s, sep)
    case None =>
      f := |s|;
    case Some(i) =>
      f := i;
      SplitAt(s, sep, i);
  }

  /** A string lacking one of the characters of `t` cannot contain `t`. */
  lemma MissingCharacter(s: string, t: string, k: int)
    requires 0 <= k < |t| && t[k] !in s
    ensures !Contains(s, t)
  {
    forall j | 0 <= j <= |s| - |t|
      ensures !OccursAt(s, t, j)
    {
      assert s[j + k] in s;
      assert s[j..j + |t|][k] == s[j + k];
    }
  }

  /** No part of a split contains the separator. */
  lemma {:induction false} SplitPartsFree(s: string, sep: string)
    requires sep != ""
    ensures forall k :: 0 <= k < |Split(s, sep)| ==> !Contains(Split(s, sep)[k], sep)
    decreases |s|
  {
    match Find(s, sep)
    case None =>
    case Some(i) =>
      var rest := s[i + |sep|..];
      SplitPartsFree(rest, sep);
      var parts := Split(s, sep);
      assert parts == [s[..i]] + Split(rest, sep);
      if Contains(s[..i], sep) {
        var j :| 0 <= j <= i - |sep| && OccursAt(s[..i], sep, j);
        OccursInPrefix(s, sep, i, j);
        assert false;
      }
      forall k | 0 <= k < |parts|
        ensures !Contains(parts[k], sep)
      {
        if k > 0 {
          assert parts[k] == Split(rest, sep)[k - 1];
        }
      }
  }

  /** An occurrence in `s[1..]` is an occurrence in `s` one place later. */
  lemma OccursInTail(s: string, t: string, j: int)
    requires |s| > 0 && OccursAt(s[1..], t, j)
    ensures OccursAt(s, t, j + 1)
  {
    assert s[1..][j..j + |t|] == s[j + 1..j + 1 + |t|];
  }

  /** Skipping a stretch without occurrences does not change the count. */
  lemma {:induction false} CountSkip(s: string, sep: string, i: int)
    requires sep != "" && 0 <= i <= |s|
    requires forall j :: 0 <= j < i ==> !OccursAt(s, sep, j)
    ensures Count(s, sep) == Count(s[i..], sep)
    decreases i
  {
    if i == 0 {
      assert s[0..] == s;
    } else if |s| < |sep| {
    } else {
      assert !OccursAt(s, sep, 0);
      assert s[..|sep|] != sep;
      forall j | 0 <= j < i - 1
        ensures !OccursAt(s[1..], sep, j)
      {
        if OccursAt(s[1..], sep, j) {
          OccursInTail(s, sep, j);
        }
      }
      CountSkip(s[1..], sep, i - 1);
      assert s[1..][i - 1..] == s[i..];
    }
  }

  /** A split has one more part than there are non-overlapping occurrences. */
  lemma {:induction false} SplitCount(s: string, sep: string)
    requires sep != ""
    ensures |Split(s, sep)| == Count(s, sep) + 1
    decreases |s|
  {
    match Find(s, sep)
    case None =>
      assert Split(s, sep) == [s];
      assert Count(s, sep) == 0;
    case Some(i) =>
      var rest := s[i + |sep|..];
      SplitCount(rest, sep);
      SplitAt(s, sep, i);
      CountAtFirst(s, sep, i);
      assert |Split(s, sep)| == 1 + |Split(rest, sep)|;
  }

  /** Counting from the leftmost occurrence: that one, then the rest after it. */
  lemma CountAtFirst(s: string, sep: string, i: int)
    requires sep != "" && FirstAt(s, sep, i)
    ensures Count(s, sep) == 1 + Count(s[i + |sep|..], sep)
  {
    CountSkip(s, sep, i);
    assert s[i..][..|sep|] == sep;
    assert s[i..][|sep|..] == s[i + |sep|..];
  }

  /** Replacing from the leftmost occurrence: the text before it, the
      replacement, then the replaced rest. */
  lemma ReplaceAt(s: string, pattern: string, replacement: string, i: int)
    requires pattern != "" && FirstAt(s, pattern, i)
    ensures ReplaceAll(s, pattern, replacement)
            == s[..i] + replacement + ReplaceAll(s[i + |pattern|..], pattern, replacement)
  {
    var rest := s[i + |pattern|..];
    SplitAt(s, pattern, i);
    JoinCons(s[..i], Split(rest, pattern), replacement);
  }

  /** `str.replace` with one character for another rewrites exactly the
      positions holding that character and keeps the length. */
  lemma {:induction false} ReplaceChar(s: string, a: char, b: char)
    ensures |ReplaceAll(s, [a], [b])| == |s|
    ensures forall k :: 0 <= k < |s| ==>
              ReplaceAll(s, [a], [b])[k] == (if s[k] == a then b else s[k])
    decreases |s|
  {
    match Find(s, [a])
    case None =>
      NoCharOccurs(s, a);
    case Some(i) =>
      var rest := s[i + 1..];
      ReplaceChar(rest, a, b);
      ReplaceAt(s, [a], [b], i);
      assert s[i..i + 1] == [a];
      forall k | 0 <= k < i
        ensures s[k] != a
      {
        assert !OccursAt(s, [a], k);
        assert s[k..k + 1] == [s[k]];
      }
      CharwiseAt(s, a, b, i, ReplaceAll(rest, [a], [b]));
  }

  /** A string without the one-character pattern lacks that character. */
  lemma NoCharOccurs(s: string, a: char)
    requires !Contains(s, [a])
    ensures forall k :: 0 <= k < |s| ==> s[k] != a
  {
    forall k | 0 <= k < |s|
      ensures s[k] != a
    {
      assert !OccursAt(s, [a], k);
      assert s[k..k + 1] == [s[k]];
    }
  }

  /** The character-wise rewrite of `s` whose first `a` sits at `i`: the text
      before it, `b`, then the rewrite of the rest. */
  lemma CharwiseAt(s: string, a: char, b: char, i: int, tail: string)
    requires 0 <= i < |s| && s[i] == a
    requires forall k :: 0 <= k < i ==> s[k] != a
    requires |tail| == |s| - i - 1
    requires forall k :: 0 <= k < |tail| ==>
               tail[k] == (if s[i + 1 + k] == a then b else s[i + 1 + k])
    ensures |s[..i] + [b] + tail| == |s|
    ensures forall k :: 0 <= k < |s| ==>
              (s[..i] + [b] + tail)[k] == (if s[k] == a then b else s[k])
  {
    var r := s[..i] + [b] + tail;
    forall k | 0 <= k < |s|
      ensures r[k] == (if s[k] == a then b else s[k])
    {
      if k > i {
        assert r[k] == tail[k - i - 1];
      }
    }
  }

  /** Python's `str.isspace` for one character: the code points that
      `str.strip()` with no argument removes. */
  predicate IsSpace(c: char) {
    var n := c as int;
    || 0x09 <= n <= 0x0D || 0x1C <= n <= 0x20
    || n == 0x85 || n == 0xA0 || n == 0x1680
    || 0x2000 <= n <= 0x200A || n == 0x2028 || n == 0x2029
    || n == 0x202F || n == 0x205F || n == 0x3000
  }

  predicate AllSpace(s: string) {
    forall k :: 0 <= k < |s| ==> IsSpace(s[k])
  }

  /** Python's `s.lstrip()`. */
  function TrimStart(s: string): (r: string)
    decreases |s|
    ensures |r| <= |s| && r == s[|s| - |r|..]
    ensures AllSpace(s[..|s| - |r|])
    ensures r == "" || !IsSpace(r[0])
  {
    if |s| > 0 && IsSpace(s[0]) then
      var r := TrimStart(s[1..]);
      TrimStartStep(s, r);
      r
    else s
  }

  /** Python's `s.rstrip()`. */
  function TrimEnd(s: string): (r: string)
    decreases |s|
    ensures |r| <= |s| && r == s[..|r|]
    ensures AllSpace(s[|r|..])
    ensures r == "" || !IsSpace(r[|r| - 1])
  {
    if |s| > 0 && IsSpace(s[|s| - 1]) then
      var r := TrimEnd(s[..|s| - 1]);
      TrimEndStep(s, r);
      r
    else s
  }

  /** A whitespace character in front of trimmed-off whitespace is trimmed off too. */
  lemma TrimStartStep(s: string, r: string)
    requires |s| > 0 && IsSpace(s[0])
    requires |r| <= |s| - 1 && r == s[1..][|s| - 1 - |r|..] && AllSpace(s[1..][..|s| - 1 - |r|])
    ensures r == s[|s| - |r|..] && AllSpace(s[..|s| - |r|])
  {
    var n := |s| - |r|;
    assert s[1..][..n - 1] == s[1..n];
    forall k | 0 <= k < n
      ensures IsSpace(s[..n][k])
    {
      if k > 0 {
        assert s[..n][k] == s[1..n][k - 1];
      }
    }
  }

  /** A whitespace character after trimmed-off whitespace is trimmed off too. */
  lemma TrimEndStep(s: string, r: string)
    requires |s| > 0 && IsSpace(s[|s| - 1])
    requires |r| <= |s| - 1 && r == s[..|s| - 1][..|r|] && AllSpace(s[..|s| - 1][|r|..])
    ensures r == s[..|r|] && AllSpace(s[|r|..])
  {
    assert s[..|s| - 1][|r|..] == s[|r|..|s| - 1];
    forall k | 0 <= k < |s| - |r|
      ensures IsSpace(s[|r|..][k])
    {
      if k < |s| - 1 - |r| {
        assert s[|r|..][k] == s[|r|..|s| - 1][k];
      }
    }
  }

  /** Python's `s.strip()`: `s` with its leading and trailing whitespace removed. */
  function Strip(s: string): (r: string)
    ensures exists lo :: OccursAt(s, r, lo) && AllSpace(s[..lo]) && AllSpace(s[lo + |r|..])
    ensures r == "" || (!IsSpace(r[0]) && !IsSpace(r[|r| - 1]))
  {
    var t := TrimStart(s);
    var r := TrimEnd(t);
    StripPieces(s, t, r);
    r
  }

  /** Cutting whitespace off the front and then off the back leaves a piece
      of the text with only whitespace around it. */
  lemma StripPieces(s: string, t: string, r: string)
    requires |t| <= |s| && t == s[|s| - |t|..] && AllSpace(s[..|s| - |t|])
    requires |r| <= |t| && r == t[..|r|] && AllSpace(t[|r|..])
    ensures OccursAt(s, r, |s| - |t|)
    ensures AllSpace(s[..|s| - |t|]) && AllSpace(s[|s| - |t| + |r|..])
  {
    var lo := |s| - |t|;
    assert s[lo..lo + |r|] == t[..|r|];
    assert s[lo + |r|..] == t[|r|..];
  }

  /** A string that neither starts nor ends with whitespace is its own strip. */
  lemma StripUnchanged(s: string)
    requires s == "" || (!IsSpace(s[0]) && !IsSpace(s[|s| - 1]))
    ensures Strip(s) == s
  {
    assert TrimStart(s) == s;
    assert TrimEnd(s) == s;
  }

  /** Stripping a stripped string changes nothing. */
  lemma StripIdempotent(s: string)
    ensures Strip(Strip(s)) == Strip(s)
  {
    StripUnchanged(Strip(s));
  }
}
