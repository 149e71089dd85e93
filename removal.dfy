/**
 * The index arithmetic of one `publish` iteration in craas.go, on plain sequences:
 * which positions the delivery pass marks, what the removal loop as written deletes,
 * and what deleting exactly the marked positions would leave.
 */
module Removal {
  import opened Base

  /** `append(s[:r], s[r+1:]...)`: element `r` is gone, the others keep their order. */
  function RemoveAt<T>(s: seq<T>, r: nat): (t: seq<T>)
    requires r < |s|
    ensures |t| == |s| - 1
  {
    s[..r] + s[r + 1..]
  }

  /** Element `r` is gone; those before it stay put and those after it move down by one. */
  lemma RemoveAtShifts<T>(s: seq<T>, r: nat)
    requires r < |s|
    ensures forall i :: 0 <= i < r ==> RemoveAt(s, r)[i] == s[i]
    ensures forall i :: r <= i < |s| - 1 ==> RemoveAt(s, r)[i] == s[i + 1]
  {
  }

  /** Putting the deleted element back at `r` undoes `RemoveAt`. */
  lemma RemoveAtReinsert<T>(s: seq<T>, r: nat)
    requires r < |s|
    ensures RemoveAt(s, r)[..r] + [s[r]] + RemoveAt(s, r)[r..] == s
  {
    var t := RemoveAt(s, r);
    assert t[..r] == s[..r] && t[r..] == s[r + 1..];
  }

  /** `RemoveAt` takes exactly one copy of `s[r]` out of the multiset of entries. */
  lemma RemoveAtMultiset<T>(s: seq<T>, r: nat)
    requires r < |s|
    ensures multiset(RemoveAt(s, r)) + multiset([s[r]]) == multiset(s)
  {
    assert s == s[..r] + [s[r]] + s[r + 1..];
  }

  /** Deleting from a duplicate-free sequence keeps it duplicate-free and drops only `s[r]`. */
  lemma RemoveAtDistinct<T>(s: seq<T>, r: nat)
    requires r < |s| && Distinct(s)
    ensures Distinct(RemoveAt(s, r))
    ensures forall x :: x in RemoveAt(s, r) <==> x in s && x != s[r]
  {
    var t := RemoveAt(s, r);
    RemoveAtShifts(s, r);
    forall i, j | 0 <= i < j < |t|
      ensures t[i] != t[j]
    {
      var i' := if i < r then i else i + 1;
      var j' := if j < r then j else j + 1;
      assert t[i] == s[i'] && t[j] == s[j'];
    }
    RemoveAtReinsert(s, r);
  }

  /**
   * The `removals` list the delivery loop builds: the registry positions whose
   * subscriber did not accept the frame, in increasing order.
   */
  function TimedOut(accepted: seq<bool>): seq<nat> {
    if |accepted| == 0 then []
    else
      var last := |accepted| - 1;
      TimedOut(accepted[..last]) + (if accepted[last] then [] else [last])
  }

  /**
   * An index is in `TimedOut(accepted)` iff that subscriber did not accept, and the list
   * is strictly increasing, so it never names a subscriber that accepted.
   */
  lemma {:induction false} TimedOutExactly(accepted: seq<bool>)
    ensures StrictlyIncreasing(TimedOut(accepted))
    ensures forall j :: 0 <= j < |TimedOut(accepted)| ==>
      TimedOut(accepted)[j] < |accepted| && !accepted[TimedOut(accepted)[j]]
    ensures forall i :: 0 <= i < |accepted| && !accepted[i] ==> i in TimedOut(accepted)
  {
    if |accepted| > 0 {
      var last := |accepted| - 1;
      var init := accepted[..last];
      TimedOutExactly(init);
      assert forall i :: 0 <= i < last ==> init[i] == accepted[i];
    }
  }

  /** Marking one more position extends the list by that position iff it timed out. */
  lemma TimedOutSnoc(accepted: seq<bool>, b: bool)
    ensures TimedOut(accepted + [b]) == TimedOut(accepted) + (if b then [] else [|accepted|])
  {
    assert (accepted + [b])[..|accepted|] == accepted;
  }

  /** What the removal loop leaves: the remaining registry, the channels it closed, and
      whether every index it used was in range (when false, Go panics). */
  datatype Pass<T> = Pass(remaining: seq<T>, closed: seq<T>, inRange: bool)

  /**
   * `for removal := range removals` binds the POSITION `j` within `removals`, so the
   * loop, from step `j` to step `k - 1`, closes and deletes whatever is at index `j` of
   * the registry as it stands at that step; the contents of `removals` never matter.
   */
  function LiteralPass<T>(s: seq<T>, j: nat, k: nat): (p: Pass<T>)
    ensures |p.remaining| + |p.closed| == |s|
    ensures p.inRange ==> j > k || |p.closed| == k - j
    decreases k - j
  {
    if j >= k then Pass(s, [], true)
    else if j >= |s| then Pass(s, [], false)
    else
      var p := LiteralPass(RemoveAt(s, j), j + 1, k);
      Pass(p.remaining, [s[j]] + p.closed, p.inRange)
  }

  /** Nothing is lost or made up: what the loop deletes and what it leaves are the registry. */
  lemma {:induction false} LiteralPassPermutes<T>(s: seq<T>, j: nat, k: nat)
    ensures var p := LiteralPass(s, j, k); multiset(p.remaining) + multiset(p.closed) == multiset(s)
    decreases k - j
  {
    if j < k && j < |s| {
      var t := RemoveAt(s, j);
      var q := LiteralPass(t, j + 1, k);
      LiteralPassPermutes(t, j + 1, k);
      RemoveAtMultiset(s, j);
      LiteralPassUnfold(s, j, k);
      MultisetRegroup(multiset(q.remaining), multiset(q.closed), multiset([s[j]]), multiset(t), multiset(s));
    } else {
      assert LiteralPass(s, j, k) == Pass(s, [], j >= k);
    }
  }

  /** Moving one multiset from one side of a union to the other. */
  lemma MultisetRegroup<T>(a: multiset<T>, b: multiset<T>, x: multiset<T>, t: multiset<T>, s: multiset<T>)
    requires a + b == t && t + x == s
    ensures a + (x + b) == s
  {
  }

  /** One step of the removal loop: the entry at `j` is closed, and the loop goes on. */
  lemma LiteralPassUnfold<T>(s: seq<T>, j: nat, k: nat)
    requires j < k && j < |s|
    ensures var q := LiteralPass(RemoveAt(s, j), j + 1, k);
      LiteralPass(s, j, k) == Pass(q.remaining, [s[j]] + q.closed, q.inRange)
  {
  }

  /** `s` without its elements at 0, 2, ..., 2(m-1): odd ones first, then the untouched tail. */
  function DropEvenPrefix<T>(s: seq<T>, m: nat): (t: seq<T>)
    requires m == 0 || 2 * (m - 1) < |s|
    ensures |t| == |s| - m
  {
    if m == 0 then s
    else if |s| == 1 then []
    else [s[1]] + DropEvenPrefix(s[2..], m - 1)
  }

  /** Position i < m of `DropEvenPrefix(s, m)` holds `s[2i+1]`, and position i >= m holds `s[i+m]`. */
  lemma {:induction false} DropEvenPrefixAt<T>(s: seq<T>, m: nat, i: nat)
    requires m == 0 || 2 * (m - 1) < |s|
    requires i < |s| - m
    ensures DropEvenPrefix(s, m)[i] == if i < m then s[2 * i + 1] else s[i + m]
    decreases m
  {
    if m > 0 {
      DropEvenPrefixUnfold(s, m);
      if i > 0 {
        DropEvenPrefixAt(s[2..], m - 1, i - 1);
      }
    }
  }

  /** The elements of `s` at 0, 2, ..., 2(m-1). */
  function EvenPrefix<T>(s: seq<T>, m: nat): (t: seq<T>)
    requires m == 0 || 2 * (m - 1) < |s|
    ensures |t| == m
  {
    if m == 0 then []
    else if |s| == 1 then [s[0]]
    else [s[0]] + EvenPrefix(s[2..], m - 1)
  }

  /** Position i of `EvenPrefix(s, m)` holds `s[2i]`. */
  lemma {:induction false} EvenPrefixAt<T>(s: seq<T>, m: nat, i: nat)
    requires m == 0 || 2 * (m - 1) < |s|
    requires i < m
    ensures EvenPrefix(s, m)[i] == s[2 * i]
    decreases m
  {
    if |s| > 1 {
      assert EvenPrefix(s, m) == [s[0]] + EvenPrefix(s[2..], m - 1);
      if i > 0 {
        EvenPrefixAt(s[2..], m - 1, i - 1);
      }
    }
  }

  /** Generalisation for the induction: at step `|prefix|` the prefix holds odd survivors. */
  lemma {:induction false} LiteralPassFrom<T>(prefix: seq<T>, rest: seq<T>, k: nat)
    requires |prefix| <= k
    ensures var p := LiteralPass(prefix + rest, |prefix|, k);
      && p.inRange == (k == |prefix| || 2 * (k - |prefix| - 1) < |rest|)
      && (p.inRange ==> p.remaining == prefix + DropEvenPrefix(rest, k - |prefix|))
      && (p.inRange ==> p.closed == EvenPrefix(rest, k - |prefix|))
    decreases k - |prefix|
  {
    var j := |prefix|;
    var s := prefix + rest;
    if j < k && |rest| > 0 {
      assert s[j] == rest[0];
      assert RemoveAt(s, j) == prefix + rest[1..];
      if |rest| == 1 {
        assert prefix + rest[1..] == prefix;
      } else {
        LiteralPassStep(prefix, rest, k);
      }
    }
  }

  /** One unfolding of `DropEvenPrefix` when at least two elements remain. */
  lemma DropEvenPrefixUnfold<T>(s: seq<T>, m: nat)
    requires 1 <= m && 2 * (m - 1) < |s| && |s| >= 2
    ensures DropEvenPrefix(s, m) == [s[1]] + DropEvenPrefix(s[2..], m - 1)
  {
  }

  /** The inductive step of `LiteralPassFrom` when at least two elements remain. */
  lemma {:induction false} LiteralPassStep<T>(prefix: seq<T>, rest: seq<T>, k: nat)
    requires |prefix| < k && |rest| >= 2
    ensures var p := LiteralPass(prefix + rest[1..], |prefix| + 1, k);
      && p.inRange == (2 * (k - |prefix| - 1) < |rest|)
      && (p.inRange ==> p.remaining == prefix + DropEvenPrefix(rest, k - |prefix|))
      && (p.inRange ==> p.closed == EvenPrefix(rest[2..], k - |prefix| - 1))
    decreases k - |prefix|, 0
  {
    var j := |prefix|;
    var prefix' := prefix + [rest[1]];
    assert prefix + rest[1..] == prefix' + rest[2..];
    LiteralPassFrom(prefix', rest[2..], k);
    var p := LiteralPass(prefix' + rest[2..], j + 1, k);
    assert p.inRange == (2 * (k - j - 1) < |rest|);
    if p.inRange {
      var tail := DropEvenPrefix(rest[2..], k - j - 1);
      DropEvenPrefixUnfold(rest, k - j);
      assert prefix' + tail == prefix + ([rest[1]] + tail);
    }
  }

  /**
   * What the removal loop of craas.go:114-118 does with `k` removals: it stays in range
   * exactly when 2(k-1) < len(subscribers), and then it has deleted, and closed, the
   * subscribers at ORIGINAL indices 0, 2, ..., 2(k-1), whichever ones timed out.
   */
  lemma LiteralPassDeletesEvenIndices<T>(s: seq<T>, k: nat)
    ensures var p := LiteralPass(s, 0, k);
      && p.inRange == (k == 0 || 2 * (k - 1) < |s|)
      && (p.inRange ==> p.remaining == DropEvenPrefix(s, k) && |p.remaining| == |s| - k)
      && (p.inRange ==> p.closed == EvenPrefix(s, k))
  {
    LiteralPassFrom([], s, k);
    assert [] + s == s;
  }

  /** `s` without the elements at the positions in `removed`, in their original order. */
  function Survivors<T>(s: seq<T>, removed: set<nat>): (t: seq<T>)
    ensures |t| <= |s|
  {
    if |s| == 0 then []
    else
      var last := |s| - 1;
      Survivors(s[..last], removed) + (if last in removed then [] else [s[last]])
  }

  /** Survivors keeps exactly the positions not removed, and keeps a registry duplicate-free. */
  lemma {:induction false} SurvivorsMembership<T>(s: seq<T>, removed: set<nat>)
    ensures forall i :: 0 <= i < |s| && i !in removed ==> s[i] in Survivors(s, removed)
    ensures forall x :: x in Survivors(s, removed) ==>
      exists i :: 0 <= i < |s| && i !in removed && s[i] == x
    ensures Distinct(s) ==> Distinct(Survivors(s, removed))
  {
    if |s| > 0 {
      var last := |s| - 1;
      var init := s[..last];
      SurvivorsMembership(init, removed);
      assert forall i :: 0 <= i < last ==> init[i] == s[i];
      if Distinct(s) {
        assert Distinct(init);
        assert s[last] !in Survivors(init, removed);
      }
    }
  }

  /** In a duplicate-free sequence, a survivor is none of the removed elements. */
  lemma SurvivorsAvoidRemoved<T>(s: seq<T>, removals: seq<nat>)
    requires Distinct(s)
    requires forall m :: 0 <= m < |removals| ==> removals[m] < |s|
    ensures Distinct(Survivors(s, Elems(removals)))
    ensures forall x :: x in Survivors(s, Elems(removals)) ==>
      x in s && forall m :: 0 <= m < |removals| ==> s[removals[m]] != x
  {
    var removed := Elems(removals);
    SurvivorsMembership(s, removed);
    forall x | x in Survivors(s, removed)
      ensures x in s && forall m :: 0 <= m < |removals| ==> s[removals[m]] != x
    {
      var k :| 0 <= k < |s| && k !in removed && s[k] == x;
      forall m | 0 <= m < |removals|
        ensures s[removals[m]] != x
      {
        assert removals[m] in removed;
      }
    }
  }

  /**
   * What the log lines of craas.go:108-109 promise: with a duplicate-free registry,
   * deleting the positions `TimedOut(accepted)` keeps a subscriber iff it accepted.
   */
  lemma IntendedKeepsExactlyAccepted<T>(s: seq<T>, accepted: seq<bool>)
    requires |accepted| == |s| && Distinct(s)
    ensures forall i :: 0 <= i < |s| ==>
      (s[i] in Survivors(s, Elems(TimedOut(accepted))) <==> accepted[i])
  {
    var removed := Elems(TimedOut(accepted));
    SurvivorsMembership(s, removed);
    TimedOutExactly(accepted);
    forall i | 0 <= i < |s| && s[i] in Survivors(s, removed)
      ensures accepted[i]
    {
      var i' :| 0 <= i' < |s| && i' !in removed && s[i'] == s[i];
      assert i' == i;
    }
  }

  /**
   * Counterexample to "the timed-out subscriber is dropped": of two subscribers, the
   * second times out; the literal loop closes and deletes the first, which accepted,
   * and keeps the second, while deleting the marked position would keep the first.
   */
  lemma LiteralPassDropsResponsiveSubscriber()
    ensures TimedOut([true, false]) == [1]
    ensures LiteralPass([10, 11], 0, |TimedOut([true, false])|) == Pass([11], [10], true)
    ensures Survivors([10, 11], Elems(TimedOut([true, false]))) == [10]
  {
    assert [true, false][..1] == [true];
    assert [true][..0] == [];
    assert Elems([1]) == {1};
    assert [10, 11][..1] == [10];
    assert [10][..0] == [];
    assert RemoveAt([10, 11], 0) == [11];
  }

  /**
   * Counterexample to "the removal loop stays in range": with three subscribers that
   * all time out, the third step indexes position 2 of a one-element registry.
   */
  lemma LiteralPassOutOfRange()
    ensures TimedOut([false, false, false]) == [0, 1, 2]
    ensures !LiteralPass([10, 11, 12], 0, |TimedOut([false, false, false])|).inRange
  {
    assert [false, false, false][..2] == [false, false];
    assert [false, false][..1] == [false];
    assert [false][..0] == [];
    LiteralPassDeletesEvenIndices([10, 11, 12], 3);
  }
}
