/**
 * The subscriber registry of craas.go's `publisher` as a state machine. A channel is
 * named by a number; the registry is the sequence `subscribers`, and `closed` records
 * every channel `close` has been applied to. The 200 ms timeout of the delivery
 * `select` becomes an oracle `accepted`, one answer per registry position, and each
 * locked section is one atomic method.
 */
module Broadcast {
  import opened Base
  import opened Removal
  import Repl

  type ChanId = nat

  /** One delivery attempt: `frame` offered to `chan`, taken or timed out. */
  datatype Offer = Offer(chan: ChanId, frame: seq<Byte>, accepted: bool)

  /** What the event source's `Read` gives the publish loop: the bytes it offers, or an error. */
  datatype ReadOutcome = Data(bytes: seq<Byte>) | ReadError

  /** The end of one publish iteration: shutdown on a reader error (then `os.Exit(1)`), or the
      frame and its offers, with `panicked` set when the removal loop indexed out of range. */
  datatype StepOutcome =
    | Shutdown
    | Published(frame: seq<Byte>, offers: seq<Offer>, panicked: bool)

  class Publisher {
    /** `pub.subscribers`, in registration order. */
    var subscribers: seq<ChanId>
    /** Every channel closed so far. */
    var closed: set<ChanId>
    /** Channels made so far are exactly those below `nextId`. */
    var nextId: ChanId
    /** The 256-byte buffer `publish` declares as its local `bs`, allocated once here. */
    const bs: array<Byte>

    /** Registered channels are distinct, made by `handle` and still open. */
    ghost predicate Valid()
      reads this
    {
      && bs.Length == MAX_FRAME
      && Distinct(subscribers)
      && (forall i :: 0 <= i < |subscribers| ==> subscribers[i] < nextId && subscribers[i] !in closed)
      && (forall c :: c in closed ==> c < nextId)
    }

    /** `&publisher{rdr: rdr, subscribers: []chan []byte{}}` in main. */
    constructor ()
      ensures Valid() && fresh(bs)
      ensures subscribers == [] && closed == {}
    {
      subscribers := [];
      closed := {};
      nextId := 0;
      bs := new Byte[MAX_FRAME];
    }

    /** The locked section of `handle`: a new channel is appended to the registry. */
    method Handle() returns (c: ChanId)
      requires Valid()
      modifies this
      ensures Valid()
      ensures subscribers == old(subscribers) + [c]
      ensures c !in old(subscribers) && c !in closed
      ensures closed == old(closed)
    {
      c := nextId;
      nextId := nextId + 1;
      subscribers := subscribers + [c];
    }

    /**
     * The delivery loop of `publish`: every registered channel, in registry order, is
     * offered the same frame; the positions that timed out are collected in `removals`.
     * No channel offered a frame is closed, so no send panics.
     */
    method Deliver(frame: seq<Byte>, accepted: seq<bool>) returns (removals: seq<nat>, offers: seq<Offer>)
      requires Valid()
      requires |accepted| == |subscribers|
      ensures removals == TimedOut(accepted)
      ensures |offers| == |subscribers|
      ensures forall i :: 0 <= i < |offers| ==> offers[i] == Offer(subscribers[i], frame, accepted[i])
      ensures forall i :: 0 <= i < |offers| ==> offers[i].chan !in closed
    {
      removals := [];
      offers := [];
      var idx := 0;
      while idx < |subscribers|
        invariant 0 <= idx <= |subscribers|
        invariant removals == TimedOut(accepted[..idx])
        invariant |offers| == idx
        invariant forall i :: 0 <= i < idx ==> offers[i] == Offer(subscribers[i], frame, accepted[i])
      {
        var sub := subscribers[idx];
        offers := offers + [Offer(sub, frame, accepted[idx])];
        assert accepted[..idx + 1] == accepted[..idx] + [accepted[idx]];
        TimedOutSnoc(accepted[..idx], accepted[idx]);
        if !accepted[idx] {
          removals := removals + [idx];
        }
        idx := idx + 1;
      }
      assert accepted[..idx] == accepted;
    }

    /**
     * The removal loop of `publish` as written: step `removal` closes and deletes the
     * channel at index `removal` of the current registry (the position in `removals`,
     * not the stored index). `inRange` is false when an index ran past the end, where
     * Go panics; the state is then the one reached before the failing step.
     */
    method RemoveLiteral(removals: seq<nat>) returns (inRange: bool)
      requires Valid()
      modifies this
      ensures Valid()
      ensures var p := LiteralPass(old(subscribers), 0, |removals|);
        && subscribers == p.remaining
        && closed == old(closed) + Elems(p.closed)
        && inRange == p.inRange
        && Elems(p.closed) !! old(closed)
      ensures nextId == old(nextId)
    {
      ghost var whole := LiteralPass(subscribers, 0, |removals|);
      ghost var done: seq<ChanId> := [];
      var removal := 0;
      while removal < |removals|
        invariant 0 <= removal <= |removals|
        invariant Valid() && nextId == old(nextId)
        invariant closed == old(closed) + Elems(done)
        invariant Elems(done) !! old(closed)
        invariant whole.remaining == LiteralPass(subscribers, removal, |removals|).remaining
        invariant whole.closed == done + LiteralPass(subscribers, removal, |removals|).closed
        invariant whole.inRange == LiteralPass(subscribers, removal, |removals|).inRange
      {
        if removal >= |subscribers| {
          return false;
        }
        ghost var sub := subscribers[removal];
        ghost var rest := LiteralPass(RemoveAt(subscribers, removal), removal + 1, |removals|).closed;
        assert done + ([sub] + rest) == (done + [sub]) + rest;
        CloseAndRemoveAt(removal);
        done := done + [sub];
        removal := removal + 1;
      }
      return true;
    }

    /**
     * The body of the removal loop (craas.go:115-117): close the channel at index `r`,
     * then delete exactly that entry. The channel was open, so `close` does not panic.
     */
    method CloseAndRemoveAt(r: nat)
      requires Valid() && r < |subscribers|
      modifies this
      ensures Valid() && nextId == old(nextId)
      ensures subscribers == RemoveAt(old(subscribers), r)
      ensures closed == old(closed) + {old(subscribers)[r]}
    {
      var sub := subscribers[r];
      assert sub !in closed;
      RemoveAtDistinct(subscribers, r);
      closed := closed + {sub};
      subscribers := RemoveAt(subscribers, r);
    }

    /**
     * The removal the log lines announce: exactly the channels at the positions in
     * `removals` are closed and deleted, and every other one stays, in order.
     */
    method RemoveTimedOut(removals: seq<nat>)
      requires Valid()
      requires StrictlyIncreasing(removals)
      requires forall m :: 0 <= m < |removals| ==> removals[m] < |subscribers|
      modifies this
      ensures Valid()
      ensures subscribers == Survivors(old(subscribers), Elems(removals))
      ensures closed == old(closed) + (set m | 0 <= m < |removals| :: old(subscribers)[removals[m]])
      ensures nextId == old(nextId)
    {
      var subs := subscribers;
      ghost var removed := Elems(removals);
      var kept: seq<ChanId> := [];
      var j := 0;
      var i := 0;
      while i < |subs|
        invariant subscribers == subs && nextId == old(nextId)
        invariant 0 <= i <= |subs| && 0 <= j <= |removals|
        invariant forall m :: 0 <= m < j ==> removals[m] < i
        invariant forall m :: j <= m < |removals| ==> removals[m] >= i
        invariant kept == Survivors(subs[..i], removed)
        invariant closed == old(closed) + (set m | 0 <= m < j :: subs[removals[m]])
      {
        assert subs[..i + 1][..i] == subs[..i];
        if j < |removals| && removals[j] == i {
          assert subs[i] !in closed;
          closed := closed + {subs[i]};
          j := j + 1;
        } else {
          assert i !in removed by {
            if j < |removals| {
              assert forall m :: j < m < |removals| ==> removals[m] > removals[j];
            }
          }
          kept := kept + [subs[i]];
        }
        i := i + 1;
      }
      assert subs[..i] == subs;
      assert j == |removals|;
      SurvivorsAvoidRemoved(subs, removals);
      forall n | 0 <= n < |kept|
        ensures kept[n] < nextId && kept[n] !in closed
      {
        assert kept[n] in kept;
      }
      subscribers := kept;
    }

    /** The shutdown section of `publish`: every registered channel is closed, none removed. */
    method CloseAll()
      requires Valid()
      modifies this
      ensures subscribers == old(subscribers) && nextId == old(nextId)
      ensures closed == old(closed) + Elems(subscribers)
    {
      var i := 0;
      while i < |subscribers|
        invariant 0 <= i <= |subscribers|
        invariant subscribers == old(subscribers) && nextId == old(nextId)
        invariant closed == old(closed) + Elems(subscribers[..i])
        invariant forall m :: i <= m < |subscribers| ==> subscribers[m] !in closed
      {
        assert subscribers[..i + 1] == subscribers[..i] + [subscribers[i]];
        closed := closed + {subscribers[i]};
        i := i + 1;
      }
      assert subscribers[..i] == subscribers;
    }

    /**
     * One iteration of `publish`, as written. The reader's bytes reach `bs` through
     * `Repl.Read`. `ReadError` is the shutdown path of craas.go:82-94 for a reader that
     * fails; the REPL's own `Read` never does.
     */
    method Publish(read: ReadOutcome, accepted: seq<bool>) returns (outcome: StepOutcome)
      requires Valid()
      requires read.Data? ==> |accepted| == |subscribers|
      modifies this, bs
      ensures nextId == old(nextId)
      ensures read.ReadError? ==>
        && outcome == Shutdown
        && subscribers == old(subscribers)
        && closed == old(closed) + Elems(old(subscribers))
      ensures read.Data? ==> Valid() && outcome.Published?
      ensures read.Data? ==>
        var n := Min(MAX_FRAME, |read.bytes|);
        var p := LiteralPass(old(subscribers), 0, |TimedOut(accepted)|);
        && outcome.frame == read.bytes[..n]
        && |outcome.offers| == |old(subscribers)|
        && (forall i :: 0 <= i < |outcome.offers| ==>
              outcome.offers[i] == Offer(old(subscribers)[i], outcome.frame, accepted[i]))
        && subscribers == p.remaining
        && closed == old(closed) + Elems(p.closed)
        && outcome.panicked == !p.inRange
    {
      if read.ReadError? {
        CloseAll();
        return Shutdown;
      }
      var n, _ := Repl.Read(bs, read.bytes);
      var frame := bs[..n];
      var removals, offers := Deliver(frame, accepted);
      var inRange := RemoveLiteral(removals);
      return Published(frame, offers, !inRange);
    }

    /** One iteration of `publish` with the removal the log lines announce. */
    method PublishIntended(read: ReadOutcome, accepted: seq<bool>) returns (outcome: StepOutcome)
      requires Valid()
      requires read.Data? ==> |accepted| == |subscribers|
      modifies this, bs
      ensures nextId == old(nextId)
      ensures read.ReadError? ==>
        && outcome == Shutdown
        && subscribers == old(subscribers)
        && closed == old(closed) + Elems(old(subscribers))
      ensures read.Data? ==> Valid() && outcome.Published? && !outcome.panicked
      ensures read.Data? ==>
        var n := Min(MAX_FRAME, |read.bytes|);
        && outcome.frame == read.bytes[..n]
        && |outcome.offers| == |old(subscribers)|
        && (forall i :: 0 <= i < |outcome.offers| ==>
              outcome.offers[i] == Offer(old(subscribers)[i], outcome.frame, accepted[i]))
        && subscribers == Survivors(old(subscribers), Elems(TimedOut(accepted)))
        && (forall i :: 0 <= i < |old(subscribers)| ==>
              (old(subscribers)[i] in subscribers <==> accepted[i]))
        && closed == old(closed) + (set i | 0 <= i < |accepted| && !accepted[i] :: old(subscribers)[i])
    {
      if read.ReadError? {
        CloseAll();
        return Shutdown;
      }
      var n, _ := Repl.Read(bs, read.bytes);
      var frame := bs[..n];
      ghost var before := subscribers;
      var removals, offers := Deliver(frame, accepted);
      TimedOutExactly(accepted);
      RemoveTimedOut(removals);
      IntendedKeepsExactlyAccepted(before, accepted);
      assert (set m | 0 <= m < |removals| :: before[removals[m]])
          == (set i | 0 <= i < |accepted| && !accepted[i] :: before[i]);
      return Published(frame, offers, false);
    }
  }
}
