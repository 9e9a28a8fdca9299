/** The stack trace that `panic` prints: a walk over linked entries that may form a cycle. */
module StackTrace {

  class Entry {
    var caller: Entry?
  }

  /** Following callers never leaves a set of entries. */
  ghost predicate Closed(s: set<Entry>)
    reads s
  {
    forall e | e in s :: e.caller == null || e.caller in s
  }

  ghost predicate Inside(e: Entry?, s: set<Entry>) {
    e == null || e in s
  }

  /** The entry `k` callers up from `head`; null once the trace has ended. */
  ghost function Nth(head: Entry?, k: nat, s: set<Entry>): (e: Entry?)
    requires Closed(s) && Inside(head, s)
    reads s
    ensures Inside(e, s)
  {
    if k == 0 then head
    else if Nth(head, k - 1, s) == null then null
    else Nth(head, k - 1, s).caller
  }

  ghost predicate Reachable(head: Entry?, e: Entry, s: set<Entry>)
    requires Closed(s) && Inside(head, s)
    reads s
  {
    exists k: nat :: Nth(head, k, s) == e
  }

  ghost predicate ReachesCycle(head: Entry?, s: set<Entry>)
    requires Closed(s) && Inside(head, s)
    reads s
  {
    exists e :: e in s && Reachable(head, e, s) && e.caller != null && Reachable(e.caller, e, s)
  }

  // ---------------------------------------------------------------- following callers

  lemma {:induction false} NthAdds(head: Entry?, i: nat, j: nat, s: set<Entry>)
    requires Closed(s) && Inside(head, s)
    ensures Nth(Nth(head, i, s), j, s) == Nth(head, i + j, s)
  {
    if j != 0 {
      NthAdds(head, i, j - 1, s);
    }
  }

  lemma {:induction false} NullStays(head: Entry?, i: nat, j: nat, s: set<Entry>)
    requires Closed(s) && Inside(head, s) && i <= j && Nth(head, i, s) == null
    ensures Nth(head, j, s) == null
    decreases j - i
  {
    if i < j {
      NullStays(head, i + 1, j, s);
    }
  }

  /** Two equal entries repeat at every multiple of their distance. */
  lemma {:induction false} Repeats(head: Entry?, i: nat, d: nat, t: nat, c: nat, s: set<Entry>)
    requires Closed(s) && Inside(head, s) && i <= t && Nth(head, i, s) == Nth(head, i + d, s)
    ensures Nth(head, t, s) == Nth(head, t + c * d, s)
    decreases c
  {
    if c > 0 {
      Repeats(head, i, d, t, c - 1, s);
      Shift(head, i, i + d, t - i + (c - 1) * d, s);
      assert t + c * d == i + d + (t - i + (c - 1) * d);
      assert t + (c - 1) * d == i + (t - i + (c - 1) * d);
    }
  }

  lemma Shift(head: Entry?, i: nat, j: nat, n: nat, s: set<Entry>)
    requires Closed(s) && Inside(head, s) && Nth(head, i, s) == Nth(head, j, s)
    ensures Nth(head, i + n, s) == Nth(head, j + n, s)
  {
    NthAdds(head, i, n, s);
    NthAdds(head, j, n, s);
  }

  /** More non-null entries than there are cannot all differ. */
  lemma Pigeonhole(head: Entry?, n: nat, s: set<Entry>) returns (i: nat, j: nat)
    requires Closed(s) && Inside(head, s) && n > |s|
    requires forall k: nat | k < n :: Nth(head, k, s) != null
    ensures i < j < n && Nth(head, i, s) == Nth(head, j, s)
  {
    var seen: map<Entry, nat> := map[];
    var k: nat := 0;
    while k < n
      invariant k <= n && |seen.Keys| == k && seen.Keys <= s
      invariant forall e | e in seen :: seen[e] < k && Nth(head, seen[e], s) == e
    {
      var e := Nth(head, k, s);
      if e in seen {
        return seen[e], k;
      }
      assert (seen[e := k]).Keys == seen.Keys + {e};
      seen := seen[e := k];
      k := k + 1;
    }
    CardinalityBound(seen.Keys, s);
    assert false;
  }

  lemma {:induction false} CardinalityBound(a: set<Entry>, b: set<Entry>)
    requires a <= b
    ensures |a| <= |b|
  {
    if a != {} {
      var e :| e in a;
      CardinalityBound(a - {e}, b - {e});
    }
  }

  lemma MultipleBeyond(i: nat, d: nat) returns (c: nat)
    requires d > 0
    ensures i < c * d <= i + d
  {
    c := i / d + 1;
    assert i == i / d * d + i % d;
    assert c * d == i / d * d + d;
  }

  /** Where the slow pointer meets the entry after the fast one, given a repetition. */
  lemma MeetingPoint(head: Entry?, i: nat, j: nat, s: set<Entry>) returns (m: nat)
    requires Closed(s) && Inside(head, s) && i < j && Nth(head, i, s) == Nth(head, j, s)
    ensures m <= 2 * (j - 1) && Nth(head, m / 2, s) == Nth(head, m + 1, s)
  {
    var c := MultipleBeyond(i, j - i);
    var t := c * (j - i) - 1;
    Repeats(head, i, j - i, t, c, s);
    m := 2 * t;
    assert m / 2 == t && m + 1 == t + c * (j - i);
  }

  /** The slow pointer moves every second step. As long as nothing is noticed, the walk is short. */
  lemma NoticedSoon(head: Entry?, k: nat, s: set<Entry>)
    requires Closed(s) && Inside(head, s)
    requires forall m: nat | m <= k :: Nth(head, m, s) != null
    requires forall m: nat | m < k :: Nth(head, m / 2, s) != Nth(head, m + 1, s)
    ensures k < 2 * |s|
  {
    if k >= 2 * |s| {
      var i, j := Pigeonhole(head, |s| + 1, s);
      var m := MeetingPoint(head, i, j, s);
    }
  }

  /** Once entry `b` repeats entry `a`, every later entry repeats one before `b`. */
  lemma {:induction false} AllSeen(head: Entry?, a: nat, b: nat, n: nat, s: set<Entry>) returns (m: nat)
    requires Closed(s) && Inside(head, s) && a < b && Nth(head, a, s) == Nth(head, b, s)
    ensures m < b && Nth(head, m, s) == Nth(head, n, s)
    decreases n
  {
    if n < b {
      m := n;
    } else {
      Shift(head, a, b, n - b, s);
      m := AllSeen(head, a, b, n - b + a, s);
    }
  }

  lemma RepeatIsCycle(head: Entry?, a: nat, b: nat, s: set<Entry>)
    requires Closed(s) && Inside(head, s) && a < b && Nth(head, a, s) == Nth(head, b, s) && Nth(head, a, s) != null
    ensures ReachesCycle(head, s)
  {
    var e := Nth(head, a, s);
    NthAdds(head, a, b - a, s);
    NthAdds(head, a, 1, s);
    NthAdds(head, a + 1, b - a - 1, s);
    if e.caller == null {
      NullStays(head, a + 1, b, s);
    }
    assert Nth(e.caller, b - a - 1, s) == e;
  }

  lemma EndIsNoCycle(head: Entry?, n: nat, s: set<Entry>)
    requires Closed(s) && Inside(head, s) && Nth(head, n, s) == null
    ensures !ReachesCycle(head, s)
  {
    if ReachesCycle(head, s) {
      var e :| e in s && Reachable(head, e, s) && e.caller != null && Reachable(e.caller, e, s);
      var a: nat :| Nth(head, a, s) == e;
      var b: nat :| Nth(e.caller, b, s) == e;
      NthAdds(head, a, 1, s);
      NthAdds(head, a + 1, b, s);
      Repeats(head, a, b + 1, a, n, s);
      assert a + n * (b + 1) >= n;
      NullStays(head, n, a + n * (b + 1), s);
    }
  }

  /** A trace that ends consists of distinct entries. */
  lemma EndIsAll(head: Entry?, n: nat, s: set<Entry>)
    requires Closed(s) && Inside(head, s) && Nth(head, n, s) == null
    requires forall m: nat | m < n :: Nth(head, m, s) != null
    ensures forall i, j | 0 <= i < j < n :: Nth(head, i, s) != Nth(head, j, s)
    ensures forall e, m: nat | e in s && Nth(head, m, s) == e :: m < n
  {
    forall i, j | 0 <= i < j < n ensures Nth(head, i, s) != Nth(head, j, s) {
      if Nth(head, i, s) == Nth(head, j, s) {
        RepeatIsCycle(head, i, j, s);
        EndIsNoCycle(head, n, s);
      }
    }
    forall e, m: nat | e in s && Nth(head, m, s) == e ensures m < n {
      if m >= n {
        NullStays(head, n, m, s);
      }
    }
  }

  /** The first entries of the trace, in order. */
  ghost predicate Prefix(printed: seq<Entry>, head: Entry?, s: set<Entry>)
    requires Closed(s) && Inside(head, s)
    reads s
  {
    forall k | 0 <= k < |printed| :: printed[k] == Nth(head, k, s)
  }

  /** The entries printed are all that can be reached. */
  ghost predicate Complete(printed: seq<Entry>, head: Entry?, s: set<Entry>)
    requires Closed(s) && Inside(head, s)
    reads s
  {
    forall e | e in s :: Reachable(head, e, s) <==> e in printed
  }

  lemma CompleteAtEnd(printed: seq<Entry>, head: Entry?, s: set<Entry>)
    requires Closed(s) && Inside(head, s) && Prefix(printed, head, s) && Nth(head, |printed|, s) == null
    ensures Complete(printed, head, s) && !ReachesCycle(head, s)
    ensures forall i, j | 0 <= i < j < |printed| :: printed[i] != printed[j]
  {
    EndIsNoCycle(head, |printed|, s);
    forall m: nat | m < |printed| ensures Nth(head, m, s) != null {
      assert printed[m] == Nth(head, m, s);
    }
    EndIsAll(head, |printed|, s);
    forall e | e in s && Reachable(head, e, s) ensures e in printed {
      var n: nat :| Nth(head, n, s) == e;
      assert printed[n] == e;
    }
  }

  lemma CompleteAtCycle(printed: seq<Entry>, a: nat, head: Entry?, s: set<Entry>)
    requires Closed(s) && Inside(head, s) && Prefix(printed, head, s)
    requires a < |printed| && Nth(head, a, s) == Nth(head, |printed|, s)
    ensures Complete(printed, head, s) && ReachesCycle(head, s)
  {
    assert printed[a] == Nth(head, a, s);
    RepeatIsCycle(head, a, |printed|, s);
    forall e | e in s && Reachable(head, e, s) ensures e in printed {
      var n: nat :| Nth(head, n, s) == e;
      var m := AllSeen(head, a, |printed|, n, s);
      assert printed[m] == e;
    }
  }

  // ---------------------------------------------------------------- the loop in `panic`

  /**
   Print the trace from the innermost entry. The walk ends on every finite structure; it prints
   every entry that can be reached, each once if the trace ends; and it reports a cycle exactly if
   one can be reached.
   */
  method PrintTrace(head: Entry?, ghost s: set<Entry>) returns (printed: seq<Entry>, cycle: bool)
    requires Closed(s) && Inside(head, s)
    ensures cycle <==> ReachesCycle(head, s)
    ensures Complete(printed, head, s) && Prefix(printed, head, s)
    ensures !cycle ==> forall i, j | 0 <= i < j < |printed| :: printed[i] != printed[j]
    ensures |printed| <= 2 * |s|
  {
    var entry, slow, updateSlow := head, head, false;
    printed := [];
    while entry != null
      invariant entry == Nth(head, |printed|, s) && slow == Nth(head, |printed| / 2, s)
      invariant updateSlow <==> |printed| % 2 == 1
      invariant Prefix(printed, head, s)
      invariant forall m: nat | m < |printed| :: Nth(head, m / 2, s) != Nth(head, m + 1, s)
      invariant |printed| <= 2 * |s|
      decreases 2 * |s| - |printed|
    {
      forall m: nat | m <= |printed| ensures Nth(head, m, s) != null {
        if m < |printed| {
          assert printed[m] == Nth(head, m, s);
        }
      }
      NoticedSoon(head, |printed|, s);
      printed := printed + [entry];
      if slow == entry.caller {
        CompleteAtCycle(printed, (|printed| - 1) / 2, head, s);
        return printed, true;
      }
      entry := entry.caller;
      if updateSlow {
        slow := slow.caller;
        updateSlow := false;
      } else {
        updateSlow := true;
      }
    }
    CompleteAtEnd(printed, head, s);
    cycle := false;
  }
}
