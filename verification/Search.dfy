/**
 `find_bytes` (lib/file.c): what it finds, and exactly when it reads only bytes that it was given. The
 length that the search goes on with is cut down by one at each candidate, not by what was skipped to get
 there.
 */
module Search {
  import opened Bytes
  import opened Cabinet

  predicate OccursAt(s: seq<byte>, pattern: seq<byte>, i: nat) {
    i + |pattern| <= |s| && s[i..i + |pattern|] == pattern
  }

  ghost predicate Occurs(s: seq<byte>, pattern: seq<byte>) {
    exists i :: 0 <= i && OccursAt(s, pattern, i)
  }

  /** Where the byte comes next from `p` on, or the end. */
  function NextOf(s: seq<byte>, b: byte, p: nat): (q: nat)
    requires p <= |s|
    ensures p <= q <= |s| && (q < |s| ==> s[q] == b)
    ensures forall i :: p <= i < q ==> s[i] != b
    decreases |s| - p
  {
    if p == |s| || s[p] == b then p else NextOf(s, b, p + 1)
  }

  /** From `p` on, with a length of `left`, the search does not read behind the end: not for the first
      byte of the pattern, and not where it compares. */
  predicate StaysInside(s: seq<byte>, pattern: seq<byte>, p: nat, left: nat)
    requires pattern != [] && p <= |s|
    decreases |s| - p
  {
    var q := NextOf(s, pattern[0], p);
    if q >= p + left then true
    else if q == |s| then false
    else if |pattern| > left then true
    else
      && q + |pattern| <= |s|
      && (OccursAt(s, pattern, q) || StaysInside(s, pattern, q + 1, left - 1))
  }

  /** But for the last places, where the pattern has no room, the first byte of the pattern stands in
      front of all others only. */
  predicate Orderly(s: seq<byte>, pattern: seq<byte>)
    requires pattern != []
  {
    forall i, j :: 0 <= i < j < |s| && s[i] != pattern[0] && s[j] == pattern[0] ==> i + |pattern| > |s|
  }

  /** A search stays inside when the pattern is still to come. */
  lemma {:induction false} OccurringStays(s: seq<byte>, pattern: seq<byte>, p: nat, left: nat, at: nat)
    requires pattern != [] && p <= at && OccursAt(s, pattern, at) && |s| <= p + left
    ensures StaysInside(s, pattern, p, left)
    decreases |s| - p
  {
    hide OccursAt;
    FirstOfOccurrence(s, pattern, at);
    var q := NextOf(s, pattern[0], p);
    if q < at {
      OccurringStays(s, pattern, q + 1, left - 1, at);
    }
  }

  lemma FirstOfOccurrence(s: seq<byte>, pattern: seq<byte>, at: nat)
    requires pattern != [] && OccursAt(s, pattern, at)
    ensures at + |pattern| <= |s| && s[at] == pattern[0]
  {
    assert s[at..at + |pattern|][0] == pattern[0];
  }

  /** Once something was skipped, a search that finds nothing ends inside only if it gives up at the very
      next candidate. */
  lemma {:induction false} SkippedLeaves(s: seq<byte>, pattern: seq<byte>, p: nat, left: nat)
    requires pattern != [] && p <= |s| < p + left && !Occurs(s, pattern)
    ensures StaysInside(s, pattern, p, left) <==> |pattern| > left && NextOf(s, pattern[0], p) < |s|
    decreases |s| - p
  {
    hide OccursAt;
    var q := NextOf(s, pattern[0], p);
    if q < |s| && |pattern| <= left && q + |pattern| <= |s| {
      SkippedLeaves(s, pattern, q + 1, left - 1);
    }
  }

  /** Where nothing was skipped so far, a search that finds nothing stays inside exactly if what is left is
      orderly. */
  lemma {:induction false} OrderlyStays(s: seq<byte>, pattern: seq<byte>, p: nat)
    requires pattern != [] && p <= |s| && !Occurs(s, pattern)
    ensures StaysInside(s, pattern, p, |s| - p) <==> Orderly(s[p..], pattern)
    decreases |s| - p
  {
    var t := s[p..];
    var q := NextOf(s, pattern[0], p);
    if q == |s| || |pattern| > |t| {
      OrderlyAtOnce(s, pattern, p);
    } else if q == p {
      OrderlyStays(s, pattern, p + 1);
      assert s[p + 1..] == t[1..];
      OrderlyBehind(t, pattern);
      hide Orderly, NextOf;
    } else {
      NotOrderly(s, pattern, p);
      hide Orderly, NextOf, OccursAt;
      if q + |pattern| <= |s| {
        SkippedLeaves(s, pattern, q + 1, |t| - 1);
      }
    }
  }

  lemma OrderlyAtOnce(s: seq<byte>, pattern: seq<byte>, p: nat)
    requires pattern != [] && p <= |s|
    requires NextOf(s, pattern[0], p) == |s| || |pattern| > |s| - p
    ensures Orderly(s[p..], pattern)
  {
    hide NextOf;
    assert forall i :: 0 <= i < |s[p..]| ==> s[p..][i] == s[p + i];
  }

  lemma NotOrderly(s: seq<byte>, pattern: seq<byte>, p: nat)
    requires pattern != [] && p + |pattern| <= |s| && p < NextOf(s, pattern[0], p) < |s|
    ensures !Orderly(s[p..], pattern)
  {
    hide NextOf;
    var t, q := s[p..], NextOf(s, pattern[0], p);
    assert t[0] != pattern[0] && t[q - p] == pattern[0];
  }

  lemma OrderlyBehind(t: seq<byte>, pattern: seq<byte>)
    requires pattern != [] && t != [] && t[0] == pattern[0]
    ensures Orderly(t, pattern) <==> Orderly(t[1..], pattern)
  {
    var u := t[1..];
    assert forall i :: 0 <= i < |u| ==> u[i] == t[i + 1];
    if Orderly(u, pattern) {
      forall i, j | 0 <= i < j < |t| && t[i] != pattern[0] && t[j] == pattern[0]
        ensures i + |pattern| > |t|
      {
        assert u[i - 1] != pattern[0] && u[j - 1] == pattern[0];
      }
    }
    if Orderly(t, pattern) {
      forall i, j | 0 <= i < j < |u| && u[i] != pattern[0] && u[j] == pattern[0]
        ensures i + |pattern| > |u|
      {
        assert t[i + 1] != pattern[0] && t[j + 1] == pattern[0];
      }
    }
  }

  /** The search reads nothing but what it was given exactly if the pattern occurs there, or the first byte
      of the pattern never comes behind a different one where the pattern would still have room. */
  lemma StaysExactly(s: seq<byte>, pattern: seq<byte>)
    requires pattern != []
    ensures StaysInside(s, pattern, 0, |s|) <==> Occurs(s, pattern) || Orderly(s, pattern)
  {
    hide OccursAt, StaysInside, Orderly;
    if Occurs(s, pattern) {
      var at :| 0 <= at && OccursAt(s, pattern, at);
      OccurringStays(s, pattern, 0, |s|, at);
    } else {
      OrderlyStays(s, pattern, 0);
      assert s[0..] == s;
    }
  }

  // ----- The search -----

  /** `memchr`, in `n` bytes from `p` on of a part of the buffer. */
  method FirstByte(buffer: array<byte>, start: nat, size: nat, p: nat, n: nat, b: byte) returns (q: Option<nat>)
    requires start + size <= buffer.Length && p <= size
    requires NextOf(buffer[start..start + size], b, p) < size || p + n <= size
    ensures
      var next := NextOf(buffer[start..start + size], b, p);
      q == if next < p + n then Some(next) else None
  {
    ghost var s := buffer[start..start + size];
    ghost var next := NextOf(s, b, p);
    var i := p;
    while i < p + n
      invariant p <= i <= next && i <= p + n
      decreases next - i
    {
      assert i < |s| && s[i] == buffer[start + i];
      if buffer[start + i] == b {
        return Some(i);
      }
      i := i + 1;
    }
    return None;
  }

  /** `find_bytes`, in a part of the buffer. */
  method FindBytes(buffer: array<byte>, start: nat, size: nat, pattern: seq<byte>) returns (found: Option<nat>)
    requires start + size <= buffer.Length && pattern != []
    requires StaysInside(buffer[start..start + size], pattern, 0, size)
    ensures
      var s := buffer[start..start + size];
      match found
      case None => !Occurs(s, pattern)
      case Some(p) => OccursAt(s, pattern, p) && forall i :: 0 <= i < p ==> !OccursAt(s, pattern, i)
  {
    hide NextOf, OccursAt, StaysInside, Occurs;
    ghost var s := buffer[start..start + size];
    var p, left := 0, size;
    while true
      invariant p <= size <= p + left && StaysInside(s, pattern, p, left)
      invariant forall i :: 0 <= i < p ==> !OccursAt(s, pattern, i)
      decreases size - p
    {
      NoneBefore(s, pattern, p);
      StaysStep(s, pattern, p, left);
      var q := FirstByte(buffer, start, size, p, left, pattern[0]);
      if q == None || |pattern| > left {
        NoneBehind(s, pattern, p, left);
        return None;
      }
      p := q.value;
      SliceOfSlice(buffer[..], start, size, p, |pattern|);
      CandidateOccurs(s, pattern, p);
      if buffer[start + p..start + p + |pattern|] == pattern {
        return Some(p);
      }
      p := p + 1;
      left := left - 1;
    }
  }

  lemma StaysStep(s: seq<byte>, pattern: seq<byte>, p: nat, left: nat)
    requires pattern != [] && p <= |s| <= p + left && StaysInside(s, pattern, p, left)
    ensures
      var q := NextOf(s, pattern[0], p);
      && (q < |s| || p + left <= |s|)
      && (q < p + left && |pattern| <= left ==>
            q + |pattern| <= |s| && (OccursAt(s, pattern, q) || StaysInside(s, pattern, q + 1, left - 1)))
  {
    hide OccursAt;
  }

  lemma SliceOfSlice(s: seq<byte>, start: nat, size: nat, p: nat, n: nat)
    requires start + size <= |s| && p + n <= size
    ensures s[start..start + size][p..p + n] == s[start + p..start + p + n]
  {
    var t, u, v := s[start..start + size], s[start..start + size][p..p + n], s[start + p..start + p + n];
    assert forall k :: 0 <= k < n ==> u[k] == t[p + k] == v[k];
  }

  lemma CandidateOccurs(s: seq<byte>, pattern: seq<byte>, p: nat)
    requires p + |pattern| <= |s|
    ensures OccursAt(s, pattern, p) <==> s[p..p + |pattern|] == pattern
  {
  }

  /** Where the first byte does not come, the pattern does not. */
  lemma NoneBefore(s: seq<byte>, pattern: seq<byte>, p: nat)
    requires pattern != [] && p <= |s|
    ensures forall i :: p <= i < NextOf(s, pattern[0], p) ==> !OccursAt(s, pattern, i)
  {
    forall i | p <= i < NextOf(s, pattern[0], p)
      ensures !OccursAt(s, pattern, i)
    {
      if OccursAt(s, pattern, i) {
        FirstOfOccurrence(s, pattern, i);
      }
    }
  }

  lemma NoneBehind(s: seq<byte>, pattern: seq<byte>, p: nat, left: nat)
    requires pattern != [] && p <= |s| <= p + left
    requires forall i :: 0 <= i < p ==> !OccursAt(s, pattern, i)
    requires NextOf(s, pattern[0], p) >= p + left || |pattern| > left
    ensures !Occurs(s, pattern)
  {
    if Occurs(s, pattern) {
      var at :| 0 <= at && OccursAt(s, pattern, at);
      FirstOfOccurrence(s, pattern, at);
      assert false;
    }
  }
}
