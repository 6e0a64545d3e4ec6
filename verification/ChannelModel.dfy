/**
 * One channel's attachment state and pending queue under every interleaving of its critical sections,
 * whether they run on the service thread or on application threads.
 */
module ChannelModel {
  import opened Bytes

  datatype ChanState = Initialized | Attaching | Attached | Detaching | Detached | Failed

  /** A queued publish; an absent name or payload is stored as the empty string. */
  datatype Pending = Pending(name: string, data: string)

  datatype Chan = Chan(state: ChanState, reattach: bool, pending: seq<Pending>)

  /** The critical sections that touch a channel. */
  datatype Event =
    | Dropped                     // the connection was lost, or an attempt to connect failed
    | Reattached                  // CONNECTED was dispatched and the ATTACH encoded
    | AttachedFrame
    | DetachedFrame(code: int)
    | ErrorFrame
    | AppAttaching                // the last section of an attach call
    | AppDetaching                // the last section of a detach call
    | Queue(msg: Pending)         // the first section of a publish call
    | Forwarded                   // one message of a flush: taken off the queue, offered to the send ring

  predicate IsLive(s: ChanState) { s.Attached? || s.Attaching? }

  /** Only these sections clear the reattach flag. */
  predicate Clears(e: Event) { e.Reattached? || e.AttachedFrame? }

  predicate Queues(room: nat, c: Chan)
  {
    c.state.Attaching? && |c.pending| < room
  }

  function Step(room: nat, c: Chan, e: Event): Chan
  {
    match e
    case Dropped => c.(state := Detached, reattach := c.reattach || IsLive(c.state))
    case Reattached => c.(state := Attaching, reattach := false)
    case AttachedFrame => c.(state := Attached, reattach := false)
    case DetachedFrame(code) => c.(state := if code != 0 then Failed else Detached)
    case ErrorFrame => c.(state := Failed)
    case AppAttaching => c.(state := Attaching)
    case AppDetaching => c.(state := Detaching)
    case Queue(m) => if Queues(room, c) then c.(pending := c.pending + [m]) else c
    case Forwarded => c.(pending := if c.pending == [] then [] else c.pending[1..])
  }

  /** What each section leaves: the state, the flag and the queue. */
  lemma {:induction false} SectionsLeave(room: nat, c: Chan, e: Event)
    ensures Step(room, c, Dropped) == Chan(Detached, c.reattach || c.state in {Attached, Attaching}, c.pending)
    ensures Step(room, c, Reattached) == Step(room, c, AppAttaching).(reattach := false)
    ensures Step(room, c, AppAttaching) == Chan(Attaching, c.reattach, c.pending)
    ensures Step(room, c, AppDetaching) == Chan(Detaching, c.reattach, c.pending)
    ensures Step(room, c, AttachedFrame) == Chan(Attached, false, c.pending)
    ensures Step(room, c, DetachedFrame(0)) == Chan(Detached, c.reattach, c.pending)
    ensures e.DetachedFrame? && e.code != 0 ==> Step(room, c, e) == Step(room, c, ErrorFrame)
    ensures Step(room, c, ErrorFrame) == Chan(Failed, c.reattach, c.pending)
    ensures e.Queue? ==> Step(room, c, e).state == c.state && Step(room, c, e).reattach == c.reattach
    ensures e.Queue? ==> Step(room, c, e).pending ==
                         if c.state == Attaching && |c.pending| < room then c.pending + [e.msg] else c.pending
  {
  }

  function Run(room: nat, c: Chan, es: seq<Event>): Chan
  {
    if es == [] then c else Step(room, Run(room, c, es[..|es| - 1]), es[|es| - 1])
  }

  // ---------------------------------------------------------------- the reattach flag

  /** The drop at `k` found the channel attached or attaching, and nothing has cleared the flag since. */
  ghost predicate DropPending(room: nat, c: Chan, es: seq<Event>, k: int)
  {
    && 0 <= k < |es| && es[k].Dropped? && IsLive(Run(room, c, es[..k]).state)
    && forall j :: k < j < |es| ==> !Clears(es[j])
  }

  /**
   * After any run the flag is up exactly when it was up at the start and nothing cleared it, or some drop
   * found the channel live and nothing has cleared it since: failed attempts and application calls between
   * keep it, and no channel that was not live at a drop gets it.
   */
  lemma {:induction false} FlagExactly(room: nat, c: Chan, es: seq<Event>)
    ensures Run(room, c, es).reattach <==>
              (c.reattach && forall j :: 0 <= j < |es| ==> !Clears(es[j])) ||
              (exists k :: DropPending(room, c, es, k))
  {
    if es != [] {
      var n := |es| - 1;
      var init := es[..n];
      FlagExactly(room, c, init);
      assert forall k :: 0 <= k <= n ==> init[..k] == es[..k];
      if Run(room, c, es).reattach {
        if exists k :: DropPending(room, c, init, k) {
          var k :| DropPending(room, c, init, k);
          assert DropPending(room, c, es, k);
        } else if es[n].Dropped? && IsLive(Run(room, c, init).state) {
          assert DropPending(room, c, es, n);
        }
      }
      if k :| DropPending(room, c, es, k) {
        if k < n {
          assert DropPending(room, c, init, k);
        }
      }
    }
  }

  /** A live channel that is dropped is reattached by the next CONNECTED, whatever failed or was called between. */
  lemma {:induction false} DroppedIsReattached(room: nat, c: Chan, between: seq<Event>)
    requires IsLive(c.state) && forall j :: 0 <= j < |between| ==> !Clears(between[j])
    ensures var d := Run(room, Step(room, c, Dropped), between);
            d.reattach && Step(room, d, Reattached).state == Attaching && !Step(room, d, Reattached).reattach
  {
    FlagExactly(room, Step(room, c, Dropped), between);
  }

  // ---------------------------------------------------------------- the pending queue

  /** The publishes that a run accepted into the queue. */
  function Accepted(room: nat, c: Chan, es: seq<Event>): seq<Pending>
  {
    if es == [] then []
    else
      var init, e := es[..|es| - 1], es[|es| - 1];
      Accepted(room, c, init) + if e.Queue? && Queues(room, Run(room, c, init)) then [e.msg] else []
  }

  function First(s: seq<Pending>): seq<Pending>
  {
    if s == [] then [] else [s[0]]
  }

  /** The publishes that a run's flushes took out of it. */
  function Flushed(room: nat, c: Chan, es: seq<Event>): seq<Pending>
  {
    if es == [] then []
    else
      var init, e := es[..|es| - 1], es[|es| - 1];
      Flushed(room, c, init) + if e.Forwarded? then First(Run(room, c, init).pending) else []
  }

  /** Accepted publishes wait, in order and through any disconnects, until a flush takes them. */
  lemma {:induction false} PendingConserved(room: nat, c: Chan, es: seq<Event>)
    requires |c.pending| <= room
    ensures c.pending + Accepted(room, c, es) == Flushed(room, c, es) + Run(room, c, es).pending
    ensures |Run(room, c, es).pending| <= room
  {
    if es == [] {
      assert c.pending + [] == [] + c.pending;
    } else {
      var init, e := es[..|es| - 1], es[|es| - 1];
      PendingConserved(room, c, init);
      var r, r' := Run(room, c, init).pending, Run(room, c, es).pending;
      var more := if e.Queue? && Queues(room, Run(room, c, init)) then [e.msg] else [];
      var out := if e.Forwarded? then First(r) else [];
      assert r + more == out + r';
      Conserve(c.pending, Accepted(room, c, init), Flushed(room, c, init), r, more, out, r');
    }
  }

  lemma Conserve<T>(c: seq<T>, a: seq<T>, f: seq<T>, r: seq<T>, more: seq<T>, out: seq<T>, r': seq<T>)
    requires c + a == f + r && r + more == out + r'
    ensures c + (a + more) == (f + out) + r'
  {
    Assoc(c, a, more);
    Assoc(f, r, more);
    Assoc(f, out, r');
  }

  /** The sections of a whole flush of `n` messages. */
  function Flushes(n: nat): (es: seq<Event>)
    ensures |es| == n
  {
    seq(n, _ => Forwarded)
  }

  /** Undisturbed, a flush drops the messages one by one from the front. */
  lemma {:induction false} FlushesTakeFront(room: nat, c: Chan, n: nat)
    requires n <= |c.pending|
    ensures Run(room, c, Flushes(n)) == c.(pending := c.pending[n..])
  {
    if n > 0 {
      assert Flushes(n)[..n - 1] == Flushes(n - 1);
      FlushesTakeFront(room, c, n - 1);
    }
  }

  // ---------------------------------------------------------------- several frames into a bounded ring

  /** A frame offered to a ring with `room` places. */
  function Offer<T>(room: nat, ring: seq<T>, f: T): seq<T>
  {
    if |ring| < room then ring + [f] else ring
  }

  /** Frames offered in order to a ring with `room` places, refusals being ignored. */
  function OfferAll<T>(room: nat, ring: seq<T>, frames: seq<T>): seq<T>
    decreases |frames|
  {
    if frames == [] then ring
    else OfferAll(room, Offer(room, ring, frames[0]), frames[1..])
  }

  /** What the ring takes is the longest prefix that fits. */
  lemma {:induction false} OfferTakesPrefix<T>(room: nat, ring: seq<T>, frames: seq<T>)
    requires |ring| <= room
    ensures OfferAll(room, ring, frames)
         == ring + frames[..if |frames| <= room - |ring| then |frames| else room - |ring|]
    decreases |frames|
  {
    if frames == [] {
      assert ring + [] == ring;
    } else if |ring| < room {
      OfferTakesPrefix(room, ring + [frames[0]], frames[1..]);
      assert forall n :: 0 < n <= |frames| ==> frames[..n] == [frames[0]] + frames[1..][..n - 1];
    } else {
      OfferTakesPrefix(room, ring, frames[1..]);
    }
  }

  lemma {:induction false} OfferSnoc<T>(room: nat, ring: seq<T>, frames: seq<T>, f: T)
    ensures OfferAll(room, ring, frames + [f]) == Offer(room, OfferAll(room, ring, frames), f)
    decreases |frames|
  {
    if frames != [] {
      assert (frames + [f])[1..] == frames[1..] + [f];
      OfferSnoc(room, Offer(room, ring, frames[0]), frames[1..], f);
    }
  }
}
