/**
 * The pieces of Python's `str` API that the serializers rely on: `startswith`,
 * `split(sep)` for a non-empty separator, its inverse `sep.join(parts)`, and
 * `strip()` with no argument.
 */
module PyStr {

  /** `s.startswith(prefix)`. */
  predicate StartsWith(s: string, prefix: string) {
    |prefix| <= |s| && s[..|prefix|] == prefix
  }

  /** `sep` occurs in `s` starting at index `i`. */
  predicate OccursAt(s: string, sep: string, i: int) {
    0 <= i && i + |sep| <= |s| && s[i..i + |sep|] == sep
  }

  /** `sep in s`. */
  ghost predicate Contains(s: string, sep: string) {
    exists i :: OccursAt(s, sep, i)
  }

  /** No proper prefix of `sep` is also a suffix of it, so two occurrences can never overlap. */
  ghost predicate Borderless(sep: string) {
    forall m :: 0 < m < |sep| ==> sep[..m] != sep[|sep| - m..]
  }

  /**
   * `s.split(sep)`: scans left to right, cutting at every occurrence of `sep`
   * that does not overlap an earlier cut.
   */
  function Split(s: string, sep: string): (parts: seq<string>)
    requires sep != []
    ensures |parts| >= 1
    decreases |s|
  {
    if |s| < |sep| then [s]
    else if s[..|sep|] == sep then [""] + Split(s[|sep|..], sep)
    else
      var rest := Split(s[1..], sep);
      [[s[0]] + rest[0]] + rest[1..]
  }

  /** `sep.join(parts)`. */
  function Join(parts: seq<string>, sep: string): string
    requires |parts| >= 1
    decreases |parts|
  {
    if |parts| == 1 then parts[0] else parts[0] + sep + Join(parts[1..], sep)
  }

  /** The first part is a prefix of the joined string. */
  lemma JoinHead(parts: seq<string>, sep: string)
    requires |parts| >= 1
    ensures parts[0] <= Join(parts, sep)
  {
    if |parts| > 1 {
      assert Join(parts, sep) == parts[0] + (sep + Join(parts[1..], sep));
    }
  }

  /** Peeling the last part off a join. */
  lemma {:induction false} JoinLast(parts: seq<string>, sep: string)
    requires |parts| >= 2
    ensures Join(parts, sep) == Join(parts[..|parts| - 1], sep) + sep + parts[|parts| - 1]
    decreases |parts|
  {
    if |parts| > 2 {
      JoinLast(parts[1..], sep);
      assert parts[1..][..|parts| - 2] == parts[..|parts| - 1][1..];
    }
  }

  /** Splitting loses nothing: joining the parts back with the separator gives the input. */
  lemma {:induction false} JoinSplit(s: string, sep: string)
    requires sep != []
    ensures Join(Split(s, sep), sep) == s
    decreases |s|
  {
    if |s| < |sep| {
    } else if s[..|sep|] == sep {
      var rest := Split(s[|sep|..], sep);
      JoinSplit(s[|sep|..], sep);
      assert Split(s, sep) == [""] + rest;
      assert ([""] + rest)[1..] == rest;
      assert s == s[..|sep|] + s[|sep|..];
    } else {
      var rest := Split(s[1..], sep);
      JoinSplit(s[1..], sep);
      var parts := [[s[0]] + rest[0]] + rest[1..];
      assert Split(s, sep) == parts;
      if |rest| > 1 {
        assert parts[1..] == rest[1..];
        assert Join(parts, sep) == [s[0]] + (rest[0] + sep + Join(rest[1..], sep));
      }
      assert s == [s[0]] + s[1..];
    }
  }

  /** No part of a split contains the separator. */
  lemma {:induction false} SplitPartsAvoidSep(s: string, sep: string)
    requires sep != []
    ensures forall k :: 0 <= k < |Split(s, sep)| ==> !Contains(Split(s, sep)[k], sep)
    decreases |s|
  {
    var parts := Split(s, sep);
    if |s| < |sep| {
      assert parts == [s];
      assert forall i :: !OccursAt(s, sep, i);
    } else if s[..|sep|] == sep {
      var rest := Split(s[|sep|..], sep);
      SplitPartsAvoidSep(s[|sep|..], sep);
      assert parts == [""] + rest;
      assert forall i :: !OccursAt("", sep, i);
      forall k | 0 < k < |parts|
        ensures !Contains(parts[k], sep)
      {
        assert parts[k] == rest[k - 1];
      }
    } else {
      var rest := Split(s[1..], sep);
      SplitPartsAvoidSep(s[1..], sep);
      JoinSplit(s[1..], sep);
      JoinHead(rest, sep);
      var first := [s[0]] + rest[0];
      assert parts == [first] + rest[1..];
      PrependAvoidsSep(s, sep, rest[0]);
      forall k | 0 < k < |parts|
        ensures !Contains(parts[k], sep)
      {
        assert parts[k] == rest[k];
      }
    }
  }

  /**
   * Putting back the first character of `s` in front of a separator-free prefix
   * of `s[1..]` creates no occurrence, when `s` does not start with `sep`.
   */
  lemma PrependAvoidsSep(s: string, sep: string, tail: string)
    requires sep != [] && |s| >= |sep| && s[..|sep|] != sep
    requires tail <= s[1..] && !Contains(tail, sep)
    ensures !Contains([s[0]] + tail, sep)
  {
    var first := [s[0]] + tail;
    assert first <= s;
    forall i
      ensures !OccursAt(first, sep, i)
    {
      if i == 0 && |sep| <= |first| {
        assert first[..|sep|] == s[..|sep|];
      } else if 0 < i && i + |sep| <= |first| {
        assert first[i..i + |sep|] == tail[i - 1..i - 1 + |sep|];
        assert !OccursAt(tail, sep, i - 1);
      }
    }
  }

  /**
   * When `a` does not contain a border-free separator, the first cut of
   * `a + sep + b` is right after `a`.
   */
  lemma {:induction false} SplitAround(a: string, sep: string, b: string)
    requires sep != [] && Borderless(sep) && !Contains(a, sep)
    ensures Split(a + sep + b, sep) == [a] + Split(b, sep)
    decreases |a|
  {
    var s := a + sep + b;
    if a == [] {
      assert s == sep + b;
      assert s[..|sep|] == sep && s[|sep|..] == b;
    } else {
      NoCutAtStart(a, sep, b);
      DropFirstAvoidsSep(a, sep);
      SplitAround(a[1..], sep, b);
      var rest := Split(s[1..], sep);
      assert s[1..] == a[1..] + sep + b;
      assert rest == [a[1..]] + Split(b, sep);
      assert Split(s, sep) == [[s[0]] + rest[0]] + rest[1..];
      assert [s[0]] + a[1..] == a;
      assert rest[1..] == Split(b, sep);
    }
  }

  /** A non-empty `a` without the border-free separator does not start `a + sep + b` with it. */
  lemma NoCutAtStart(a: string, sep: string, b: string)
    requires sep != [] && a != [] && Borderless(sep) && !Contains(a, sep)
    ensures |a + sep + b| >= |sep| && (a + sep + b)[..|sep|] != sep
  {
    var s := a + sep + b;
    if |sep| <= |a| {
      assert !OccursAt(a, sep, 0);
      assert s[..|sep|] == a[..|sep|];
    } else {
      var m := |sep| - |a|;
      assert sep[..m] != sep[|sep| - m..];
      assert s[..|sep|] == a + sep[..m];
      assert sep[|sep| - m..] == sep[|a|..];
    }
  }

  /** Dropping the first character cannot create an occurrence. */
  lemma DropFirstAvoidsSep(a: string, sep: string)
    requires a != [] && !Contains(a, sep)
    ensures !Contains(a[1..], sep)
  {
    forall i
      ensures !OccursAt(a[1..], sep, i)
    {
      if 0 <= i && i + |sep| <= |a| - 1 {
        assert a[1..][i..i + |sep|] == a[i + 1..i + 1 + |sep|];
        assert !OccursAt(a, sep, i + 1);
      }
    }
  }

  /** Every cut of a split sits at an occurrence of the separator; here, the first one. */
  lemma SplitCutsAtSep(s: string, sep: string)
    requires sep != []
    ensures |Split(s, sep)| > 1 ==> OccursAt(s, sep, |Split(s, sep)[0]|)
  {
    var parts := Split(s, sep);
    JoinSplit(s, sep);
    if |parts| > 1 {
      assert Join(parts, sep) == parts[0] + sep + Join(parts[1..], sep);
    }
  }

  /** A string without the separator splits into itself alone. */
  lemma SplitNoSep(s: string, sep: string)
    requires sep != [] && !Contains(s, sep)
    ensures Split(s, sep) == [s]
  {
    SplitCutsAtSep(s, sep);
    JoinSplit(s, sep);
  }

  /**
   * A single marker character splits a string uniquely when it does not occur
   * after the marker: `x + [c] + y == x' + [c] + y'` forces `x == x'` and `y == y'`.
   */
  lemma CutAtLastMark(x: string, c: char, y: string, x': string, y': string)
    requires x + [c] + y == x' + [c] + y'
    requires c !in y && c !in y'
    ensures x == x' && y == y'
  {
    var s := x + [c] + y;
    assert forall k :: |x| < k < |s| ==> s[k] == y[k - |x| - 1];
    assert forall k :: |x'| < k < |s| ==> s[k] == y'[k - |x'| - 1];
    assert s[|x|] == c && s[|x'|] == c;
    assert |x| == |x'|;
    assert x == s[..|x|] == x';
    assert y == s[|x| + 1..] == y';
  }

  // ---------------------------------------------------------------- strip()

  /**
   * `c.isspace()`: the characters that Python's argument-less `str.strip()`
   * removes (Unicode white space and the ASCII separators U+001C-U+001F).
   */
  predicate IsSpace(c: char) {
    || ('\t' <= c <= '\r') || ('\U{1c}' <= c <= '\U{1f}') || c == ' ' || c == '\U{85}' || c == '\U{a0}'
    || c == '\U{1680}' || ('\U{2000}' <= c <= '\U{200a}') || c == '\U{2028}' || c == '\U{2029}'
    || c == '\U{202f}' || c == '\U{205f}' || c == '\U{3000}'
  }

  /** Every character of `s` is white space (vacuously so for ""). */
  predicate AllSpace(s: string) {
    forall i :: 0 <= i < |s| ==> IsSpace(s[i])
  }

  /** Where the white space that starts at `i` ends: the first non-space at or after `i`, or `|s|`. */
  function SpaceRunEnd(s: string, i: nat): (e: nat)
    requires i <= |s|
    ensures i <= e <= |s|
    ensures forall k :: i <= k < e ==> IsSpace(s[k])
    ensures e == |s| || !IsSpace(s[e])
    decreases |s| - i
  {
    if i < |s| && IsSpace(s[i]) then SpaceRunEnd(s, i + 1) else i
  }

  /** Where the white space that ends at `j` starts, looking no further back than `lo`. */
  function SpaceRunStart(s: string, lo: nat, j: nat): (b: nat)
    requires lo <= j <= |s|
    ensures lo <= b <= j
    ensures forall k :: b <= k < j ==> IsSpace(s[k])
    ensures b == lo || !IsSpace(s[b - 1])
    decreases j
  {
    if j > lo && IsSpace(s[j - 1]) then SpaceRunStart(s, lo, j - 1) else j
  }

  /** Where `strip()` starts cutting: the length of the leading white space. */
  function StripStart(s: string): nat {
    SpaceRunEnd(s, 0)
  }

  /**
   * `s.strip()`: the piece of `s` between its leading and its trailing white
   * space, which neither starts nor ends with white space and is empty
   * exactly when `s` is all white space.
   */
  function Strip(s: string): (r: string)
    ensures StripStart(s) + |r| <= |s| && r == s[StripStart(s)..StripStart(s) + |r|]
    ensures forall k :: 0 <= k < StripStart(s) ==> IsSpace(s[k])
    ensures forall k :: StripStart(s) + |r| <= k < |s| ==> IsSpace(s[k])
    ensures r == [] || (!IsSpace(r[0]) && !IsSpace(r[|r| - 1]))
    ensures r == [] <==> AllSpace(s)
  {
    var a := SpaceRunEnd(s, 0);
    var b := SpaceRunStart(s, a, |s|);
    s[a..b]
  }

  /**
   * `strip()` characterised independently: white space around a piece that
   * neither starts nor ends with white space strips to exactly that piece.
   */
  lemma StripOf(a: string, m: string, b: string)
    requires AllSpace(a) && AllSpace(b)
    requires m == [] || (!IsSpace(m[0]) && !IsSpace(m[|m| - 1]))
    ensures Strip(a + m + b) == m
  {
    var s := a + m + b;
    if m == [] {
      assert forall k :: 0 <= k < |s| ==> s[k] == if k < |a| then a[k] else b[k - |a|];
    } else {
      assert s[|a|] == m[0] && s[|a| + |m| - 1] == m[|m| - 1];
      assert forall k :: 0 <= k < |a| ==> s[k] == a[k];
      assert forall k :: |a| + |m| <= k < |s| ==> s[k] == b[k - |a| - |m|];
      var e := SpaceRunEnd(s, 0);
      assert e == |a|;
      var st := SpaceRunStart(s, e, |s|);
      assert st == |a| + |m|;
      assert s[|a|..|a| + |m|] == m;
    }
  }

  /** Stripping twice changes nothing more: a stripped value is its own `strip()`. */
  lemma StripIdempotent(s: string)
    ensures Strip(Strip(s)) == Strip(s)
  {
    var m := Strip(s);
    assert m == [] + m + [];
    StripOf([], m, []);
  }
}
