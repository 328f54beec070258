/**
 * String helpers shared by the server and the client: whitespace trimming
 * (Python's `str.strip()` and JavaScript's `String.prototype.trim()`) and the
 * search, split and join on a separator that the client uses to take a frame
 * apart (`split(": ")` and `join(": ")`).
 */
module Text {
  import opened Wrappers

  /**
   * The ASCII whitespace that both `strip()` and `trim()` remove. Each also
   * removes further, partly different, characters, which are not modelled.
   */
  predicate IsSpace(c: char) {
    c == ' ' || c == '\t' || c == '\n' || c == '\r' || c == '\U{B}' || c == '\U{C}'
  }

  predicate AllSpace(s: string) {
    forall k :: 0 <= k < |s| ==> IsSpace(s[k])
  }

  /** Neither end of `s` is whitespace (vacuously true of the empty string). */
  predicate NoEdgeSpace(s: string) {
    |s| == 0 || (!IsSpace(s[0]) && !IsSpace(s[|s| - 1]))
  }

  /** Drops leading whitespace: the result is the suffix left after an all-space prefix. */
  function TrimStart(s: string): (r: string)
    ensures |r| <= |s| && r == s[|s| - |r|..]
    ensures AllSpace(s[..|s| - |r|])
    ensures |r| == 0 || !IsSpace(r[0])
  {
    if |s| > 0 && IsSpace(s[0]) then
      var r := TrimStart(s[1..]);
      assert s[1..][..|s| - 1 - |r|] == s[1..|s| - |r|];
      r
    else
      s
  }

  /** Drops trailing whitespace: the result is the prefix left before an all-space suffix. */
  function TrimEnd(s: string): (r: string)
    ensures |r| <= |s| && r == s[..|r|]
    ensures AllSpace(s[|r|..])
    ensures |r| == 0 || !IsSpace(r[|r| - 1])
  {
    if |s| > 0 && IsSpace(s[|s| - 1]) then
      var r := TrimEnd(s[..|s| - 1]);
      assert s[..|s| - 1][|r|..] == s[|r|..|s| - 1];
      r
    else
      s
  }

  /**
   * Python's `strip()` / JavaScript's `trim()`: no whitespace is left at
   * either end; `StripDecomposes` and `StripOfPadded` say exactly what is
   * cut off.
   */
  function Strip(s: string): (r: string)
    ensures NoEdgeSpace(r)
    ensures |r| <= |s|
  {
    var t := TrimStart(s);
    var r := TrimEnd(t);
    assert |r| > 0 ==> r[0] == t[0];
    r
  }

  lemma {:induction false} TrimStartOfPadded(p: string, u: string)
    requires AllSpace(p)
    requires |u| == 0 || !IsSpace(u[0])
    ensures TrimStart(p + u) == u
    decreases |p|
  {
    if |p| > 0 {
      assert (p + u)[1..] == p[1..] + u;
      TrimStartOfPadded(p[1..], u);
    } else {
      assert p + u == u;
    }
  }

  lemma {:induction false} TrimEndOfPadded(u: string, q: string)
    requires AllSpace(q)
    requires |u| == 0 || !IsSpace(u[|u| - 1])
    ensures TrimEnd(u + q) == u
    decreases |q|
  {
    if |q| > 0 {
      assert (u + q)[..|u + q| - 1] == u + q[..|q| - 1];
      TrimEndOfPadded(u, q[..|q| - 1]);
    } else {
      assert u + q == u;
    }
  }

  /**
   * Stripping undoes any whitespace padding of a string that has no
   * whitespace at its ends; so the decomposition `Strip` promises is unique.
   */
  lemma StripOfPadded(p: string, t: string, q: string)
    requires AllSpace(p) && AllSpace(q) && NoEdgeSpace(t)
    ensures Strip(p + t + q) == t
  {
    if |t| == 0 {
      assert p + t + q == p + q;
      var s := p + q;
      assert AllSpace(s);
      var r := TrimStart(s);
      assert r == s[|s| - |r|..];
      assert |r| == 0;
      assert TrimEnd(r) == r;
    } else {
      assert p + t + q == p + (t + q);
      TrimStartOfPadded(p, t + q);
      TrimEndOfPadded(t, q);
    }
  }

  /** Stripping twice is stripping once. */
  lemma StripIdempotent(s: string)
    ensures Strip(Strip(s)) == Strip(s)
  {
    var r := Strip(s);
    assert r == [] + r + [];
    StripOfPadded([], r, []);
  }

  /** The all-space prefix and suffix that `Strip` cuts off. */
  lemma StripDecomposes(s: string) returns (lead: string, trail: string)
    ensures s == lead + Strip(s) + trail
    ensures AllSpace(lead) && AllSpace(trail)
  {
    var t := TrimStart(s);
    var r := TrimEnd(t);
    lead, trail := s[..|s| - |t|], t[|r|..];
    SplitAt(t, |r|);
    SplitAt(s, |s| - |t|);
    Assoc(lead, r, trail);
  }

  /** Solver aid: a cut at `i` puts the string back together. */
  lemma SplitAt(s: string, i: nat)
    requires i <= |s|
    ensures s == s[..i] + s[i..]
  {
  }

  /** Solver aid: concatenation regroups. */
  lemma Assoc(a: string, b: string, c: string)
    ensures a + (b + c) == a + b + c
  {
  }

  /** Whitespace added around a string does not change its strip. */
  lemma StripAbsorbsPadding(p: string, s: string, q: string)
    requires AllSpace(p) && AllSpace(q)
    ensures Strip(p + s + q) == Strip(s)
  {
    var lead, trail := StripDecomposes(s);
    var r := Strip(s);
    Regroup(p, lead, r, trail, q);
    AllSpaceConcat(p, lead);
    AllSpaceConcat(trail, q);
    StripOfPadded(p + lead, r, trail + q);
  }

  /** Solver aid: the padding regroups around the stripped text. */
  lemma Regroup(p: string, lead: string, r: string, trail: string, q: string)
    ensures p + (lead + r + trail) + q == (p + lead) + r + (trail + q)
  {
  }

  lemma AllSpaceConcat(a: string, b: string)
    requires AllSpace(a) && AllSpace(b)
    ensures AllSpace(a + b)
  {
    forall k | 0 <= k < |a + b| ensures IsSpace((a + b)[k]) {
      if k >= |a| {
        assert (a + b)[k] == b[k - |a|];
      }
    }
  }

  /** A head with no whitespace at its ends is kept whole; only the tail's trailing whitespace goes. */
  lemma StripKeepsHead(head: string, u: string)
    requires |head| > 0 && NoEdgeSpace(head)
    ensures Strip(head + u) == head + TrimEnd(u)
  {
    var t := TrimEnd(u);
    var q := u[|t|..];
    assert u == t + q;
    var w := head + t;
    assert head + u == [] + w + q;
    assert w[0] == head[0];
    assert w[|w| - 1] == if |t| > 0 then t[|t| - 1] else head[|head| - 1];
    StripOfPadded([], w, q);
  }

  // ---------------------------------------------------------------------
  // Separator search, split and join

  /**
   * The separator of the `"{who}: {body}"` frame format: the server builds
   * frames with it (main.py lines 60 and 93) and the client splits on it.
   */
  const Sep: string := ": "

  /** A body labelled with `who` sent it, as the server's f-strings build it. */
  function Labelled(who: string, body: string): string {
    who + Sep + body
  }

  /** `sep` occurs in `s` starting at index `i`. */
  predicate OccursAt(s: string, sep: string, i: int) {
    0 <= i && i + |sep| <= |s| && s[i..i + |sep|] == sep
  }

  predicate Contains(s: string, sep: string) {
    exists i :: 0 <= i <= |s| && OccursAt(s, sep, i)
  }

  /** The first index at or after `from` where `sep` occurs, if any. */
  function FindFrom(s: string, sep: string, from: nat): (r: Option<nat>)
    requires from <= |s|
    ensures r.Some? ==> from <= r.value && OccursAt(s, sep, r.value)
    ensures r.Some? ==> forall k :: from <= k < r.value ==> !OccursAt(s, sep, k)
    ensures r.None? ==> forall k :: from <= k ==> !OccursAt(s, sep, k)
    decreases |s| - from
  {
    if OccursAt(s, sep, from) then Some(from)
    else if from + |sep| >= |s| then None
    else FindFrom(s, sep, from + 1)
  }

  /** The first occurrence of `sep` in `s`, as JavaScript's `indexOf` finds it. */
  function FirstOccurrence(s: string, sep: string): (r: Option<nat>)
    ensures r.Some? ==> OccursAt(s, sep, r.value) && forall k :: 0 <= k < r.value ==> !OccursAt(s, sep, k)
    ensures r.None? <==> !Contains(s, sep)
  {
    FindFrom(s, sep, 0)
  }

  /**
   * JavaScript's `parts.join(sep)`: the pieces in order with `sep` between
   * neighbours, so the separator shows up exactly when there are two or
   * more pieces or one piece already holds it.
   */
  function Join(parts: seq<string>, sep: string): (r: string)
    ensures |parts| == 0 ==> r == ""
    ensures |parts| == 1 ==> r == parts[0]
    ensures |parts| > 1 ==> Contains(r, sep)
    decreases |parts|
  {
    if |parts| == 0 then ""
    else if |parts| == 1 then parts[0]
    else
      var r := parts[0] + sep + Join(parts[1..], sep);
      assert r[|parts[0]|..|parts[0]| + |sep|] == sep;
      assert OccursAt(r, sep, |parts[0]|);
      r
  }

  /**
   * JavaScript's `s.split(sep)` for a non-empty separator: the pieces between
   * successive leftmost non-overlapping occurrences of `sep`. Joining the
   * pieces back with `sep` gives `s`, and no piece contains `sep`.
   */
  function Split(s: string, sep: string): (parts: seq<string>)
    requires |sep| > 0
    ensures |parts| >= 1
    ensures Join(parts, sep) == s
    ensures forall k :: 0 <= k < |parts| ==> !Contains(parts[k], sep)
    decreases |s|
  {
    match FirstOccurrence(s, sep)
    case None => [s]
    case Some(i) =>
      var head := s[..i];
      var rest := Split(s[i + |sep|..], sep);
      assert !Contains(head, sep) by {
        forall k | OccursAt(head, sep, k) ensures false {
          assert head[k..k + |sep|] == s[k..k + |sep|];
          assert OccursAt(s, sep, k);
        }
      }
      assert s == head + sep + s[i + |sep|..];
      [head] + rest
  }
}
