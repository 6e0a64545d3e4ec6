/** Channels and the client that owns them: attach, detach, publish, flush and reattach. */
module Channel {
  import opened Bytes
  import R = SendRing
  import opened M = ChannelModel

  /** Outbound frames before encoding; the encoder is a parameter and may fail. */
  datatype Frame =
    | Attach(channel: string)
    | Detach(channel: string)
    | Publish(channel: string, name: Option<string>, data: Option<string>, serial: nat)

  datatype Rc = OK | ErrState | ErrInternal | ErrCapacity

  class Link {
    const ring: R.Ring<Frame>
    const encodes: Frame -> bool
    var connected: bool
    /** outbound_msg_serial */
    var serial: nat

    ghost predicate Valid()
      reads this, ring, ring.buf
    {
      ring.Valid()
    }

    /** How many frames the send ring can hold. */
    ghost function Room(): nat
    {
      if ring.buf.Length == 0 then 0 else ring.buf.Length - 1
    }

    constructor (capacity: nat, encodes: Frame -> bool)
      requires capacity > 0
      ensures Valid() && ring.contents == [] && Room() == capacity - 1 && serial == 0 && this.encodes == encodes
      ensures fresh(ring) && fresh(ring.buf)
    {
      ring := new R.Ring<Frame>(capacity);
      this.encodes, connected, serial := encodes, false, 0;
    }

    /** Each call claims the next serial. */
    method ClaimSerial() returns (s: nat)
      modifies this`serial
      ensures s == old(serial) && serial == s + 1
    {
      s := serial;
      serial := serial + 1;
    }
  }

  class Channel {
    const name: string
    const queue: R.Ring<Pending>
    var state: ChanState
    var reattachPending: bool

    ghost predicate Valid()
      reads this, queue, queue.buf
    {
      queue.Valid()
    }

    ghost function View(): Chan
      requires Valid()
      reads this, queue, queue.buf
    {
      Chan(state, reattachPending, queue.contents)
    }

    ghost function QueueRoom(): nat
    {
      if queue.buf.Length == 0 then 0 else queue.buf.Length - 1
    }

    constructor (name: string, queueCapacity: nat)
      requires queueCapacity > 0
      ensures Valid() && View() == Chan(Initialized, false, []) && this.name == name
      ensures fresh(queue) && fresh(queue.buf)
    {
      this.name, state, reattachPending := name, Initialized, false;
      queue := new R.Ring<Pending>(queueCapacity);
    }

    method OnDisconnect()
      requires Valid()
      modifies this`state, this`reattachPending
      ensures Valid() && View() == Step(QueueRoom(), old(View()), Dropped)
    {
      if state == Attached || state == Attaching {
        reattachPending := true;
      }
      state := Detached;
    }

    method SetAttaching()
      requires Valid()
      modifies this`state, this`reattachPending
      ensures Valid() && View() == Step(QueueRoom(), old(View()), Reattached)
    {
      reattachPending := false;
      state := Attaching;
    }

    method OnDetached(code: int)
      requires Valid()
      modifies this`state
      ensures Valid() && View() == Step(QueueRoom(), old(View()), DetachedFrame(code))
    {
      state := if code != 0 then Failed else Detached;
    }

    /** ATTACHED: the flag is cleared, then the queue is flushed. */
    method OnAttached(link: Link)
      requires Valid() && link.Valid() && Apart(link)
      modifies this`state, this`reattachPending, queue`tail, queue`contents, link`serial,
               link.ring`head, link.ring`contents, link.ring.buf
      ensures Valid() && link.Valid() && Apart(link)
      ensures View() == Chan(Attached, false, [])
      ensures link.serial == old(link.serial + |View().pending|)
      ensures link.ring.contents == OfferAll(link.Room(), old(link.ring.contents),
                Frames(link.encodes, name, old(View().pending), old(link.serial)))
    {
      reattachPending := false;
      state := Attached;
      FlushPending(link);
    }

    /** The send ring and the queue are different objects. */
    ghost predicate Apart(link: Link)
      reads this, link
    {
      link.ring as object != queue && link.ring.buf as object != queue.buf
    }

    /**
     * Empties the queue: one serial for each message, and to the ring, in order, as many of the frames that
     * encode as fit.
     */
    method FlushPending(link: Link)
      requires Valid() && link.Valid() && Apart(link)
      modifies queue`tail, queue`contents, link`serial, link.ring`head, link.ring`contents, link.ring.buf
      ensures Valid() && link.Valid() && View() == Run(QueueRoom(), old(View()), Flushes(|old(View()).pending|))
      ensures queue.contents == []
      ensures link.serial == old(link.serial + |View().pending|)
      ensures link.ring.contents == OfferAll(link.Room(), old(link.ring.contents),
                Frames(link.encodes, name, old(View().pending), old(link.serial)))
      ensures var all := AllFrames(name, old(View().pending), old(link.serial));
              var free := link.Room() - |old(link.ring.contents)|;
              (forall f :: f in all ==> link.encodes(f)) ==>
                link.ring.contents == old(link.ring.contents) + all[..if |all| <= free then |all| else free]
    {
      ghost var msgs, first, ring := queue.contents, link.serial, link.ring.contents;
      FlushesTakeFront(QueueRoom(), View(), |msgs|);
      FlushLoop(link, msgs, first, link.Room(), ring);
      RingAfterOffers(link.encodes, name, msgs, |msgs|, first, link.Room(), ring);
      assert msgs[..|msgs|] == msgs;
      FlushTakesPrefix(link.encodes, name, msgs, first, link.Room(), ring);
    }

    method FlushLoop(link: Link, ghost msgs: seq<Pending>, ghost first: nat, ghost room: nat, ghost ring: seq<Frame>)
      requires Valid() && link.Valid() && Apart(link) && room == link.Room()
      requires msgs == queue.contents && first == link.serial && ring == link.ring.contents
      modifies queue`tail, queue`contents, link`serial, link.ring`head, link.ring`contents, link.ring.buf
      ensures Valid() && link.Valid() && queue.contents == [] && link.serial == first + |msgs|
      ensures link.ring.contents == RingAfter(link.encodes, name, msgs, |msgs|, first, room, ring)
    {
      ghost var n: nat := 0;
      while !queue.IsEmpty()
        invariant Valid() && link.Valid()
        invariant n <= |msgs| && queue.contents == msgs[n..] && link.serial == first + n
        invariant link.ring.contents == RingAfter(link.encodes, name, msgs, n, first, room, ring)
        decreases |msgs| - n
      {
        assert msgs[n..][0] == msgs[n] && msgs[n..][1..] == msgs[n + 1..];
        FlushOne(link);
        n := n + 1;
      }
    }

    /** The oldest queued message: claim a serial, encode, offer the frame to the ring, drop the message. */
    method FlushOne(link: Link)
      requires Valid() && link.Valid() && Apart(link) && queue.contents != []
      modifies queue`tail, queue`contents, link`serial, link.ring`head, link.ring`contents, link.ring.buf
      ensures Valid() && link.Valid() && queue.contents == old(queue.contents)[1..]
      ensures link.serial == old(link.serial) + 1
      ensures var f := PublishFrame(name, old(queue.contents)[0], old(link.serial));
              link.ring.contents == if link.encodes(f) then Offer(link.Room(), old(link.ring.contents), f)
                                      else old(link.ring.contents)
    {
      var m := queue.Peek();
      var serial := link.ClaimSerial();
      var frame := PublishFrame(name, m.value, serial);
      if link.encodes(frame) {
        var ok := link.ring.Enqueue(frame);
      }
      queue.Consume();
    }

    // ------------------------------------------------------------- application calls

    method AttachCall(link: Link) returns (rc: Rc)
      requires Valid() && link.Valid() && Apart(link)
      modifies this`state, link.ring`head, link.ring`contents, link.ring.buf
      ensures Valid() && link.Valid()
      ensures rc == if IsLive(old(state)) then OK
                    else if !link.connected then ErrState
                    else if !link.encodes(Attach(name)) then ErrInternal
                    else if |old(link.ring.contents)| == link.Room() then ErrCapacity
                    else OK
      ensures if rc == OK && !IsLive(old(state))
              then View() == Step(QueueRoom(), old(View()), AppAttaching)
                   && link.ring.contents == old(link.ring.contents) + [Attach(name)]
              else View() == old(View()) && link.ring.contents == old(link.ring.contents)
    {
      if state == Attached || state == Attaching {
        return OK;
      }
      if !link.connected {
        return ErrState;
      }
      if !link.encodes(Attach(name)) {
        return ErrInternal;
      }
      var ok := link.ring.Enqueue(Attach(name));
      if !ok {
        return ErrCapacity;
      }
      state := Attaching;
      return OK;
    }

    method DetachCall(link: Link) returns (rc: Rc)
      requires Valid() && link.Valid() && Apart(link)
      modifies this`state, link.ring`head, link.ring`contents, link.ring.buf
      ensures Valid() && link.Valid()
      ensures rc == if !IsLive(old(state)) then ErrState
                    else if !link.encodes(Detach(name)) then ErrInternal
                    else if |old(link.ring.contents)| == link.Room() then ErrCapacity
                    else OK
      ensures if rc == OK
              then View() == Step(QueueRoom(), old(View()), AppDetaching)
                   && link.ring.contents == old(link.ring.contents) + [Detach(name)]
              else View() == old(View()) && link.ring.contents == old(link.ring.contents)
    {
      if state != Attached && state != Attaching {
        return ErrState;
      }
      if !link.encodes(Detach(name)) {
        return ErrInternal;
      }
      var ok := link.ring.Enqueue(Detach(name));
      if !ok {
        return ErrCapacity;
      }
      state := Detaching;
      return OK;
    }

    /** Queued while attaching, sent when attached, refused otherwise; a serial is spent on every send. */
    method PublishCall(link: Link, msg: Option<string>, data: Option<string>) returns (rc: Rc)
      requires Valid() && link.Valid() && Apart(link)
      modifies queue`head, queue`contents, queue.buf, link`serial, link.ring`head, link.ring`contents, link.ring.buf
      ensures Valid() && link.Valid() && state == old(state)
      ensures View() == Step(QueueRoom(), old(View()), Queue(Stored(msg, data)))
      ensures state == Attaching ==>
                && rc == (if Queues(QueueRoom(), old(View())) then OK else ErrCapacity)
                && link.serial == old(link.serial) && link.ring.contents == old(link.ring.contents)
      ensures state != Attaching && state != Attached ==>
                rc == ErrState && link.serial == old(link.serial) && link.ring.contents == old(link.ring.contents)
      ensures state == Attached ==>
                var f := Publish(name, msg, data, old(link.serial));
                && link.serial == old(link.serial) + 1
                && rc == (if !link.encodes(f) then ErrInternal
                          else if |old(link.ring.contents)| == link.Room() then ErrCapacity else OK)
                && link.ring.contents == old(link.ring.contents) + if rc == OK then [f] else []
    {
      if state == Attaching {
        var ok := queue.Enqueue(Stored(msg, data));
        return if ok then OK else ErrCapacity;
      }
      if state != Attached {
        return ErrState;
      }
      var serial := link.ClaimSerial();
      var f := Publish(name, msg, data, serial);
      if !link.encodes(f) {
        return ErrInternal;
      }
      var ok := link.ring.Enqueue(f);
      return if ok then OK else ErrCapacity;
    }
  }

  function Stored(name: Option<string>, data: Option<string>): Pending
  {
    Pending(if name.Some? then name.value else "", if data.Some? then data.value else "")
  }

  function Present(s: string): Option<string>
  {
    if s == "" then None else Some(s)
  }

  function PublishFrame(channel: string, m: Pending, serial: nat): Frame
  {
    Publish(channel, Present(m.name), Present(m.data), serial)
  }

  /** An empty string in the queue stands for an absent one. */
  function Arrives(s: Option<string>): Option<string>
  {
    if s == Some("") then None else s
  }

  /** A queued publish is sent as the same publish would have been at once, empty strings apart. */
  lemma {:induction false} QueuedIsSentAsGiven(channel: string, msg: Option<string>, data: Option<string>, serial: nat)
    ensures PublishFrame(channel, Stored(msg, data), serial) == Publish(channel, Arrives(msg), Arrives(data), serial)
    ensures msg != Some("") && data != Some("") ==>
              PublishFrame(channel, Stored(msg, data), serial) == Publish(channel, msg, data, serial)
  {
  }

  /** The frames of queued messages with consecutive serials, those that do not encode left out. */
  function Frames(encodes: Frame -> bool, channel: string, msgs: seq<Pending>, first: nat): seq<Frame>
  {
    if msgs == [] then []
    else
      var n := |msgs| - 1;
      var f := PublishFrame(channel, msgs[n], first + n);
      Frames(encodes, channel, msgs[..n], first) + if encodes(f) then [f] else []
  }

  /** The ring after the first `n` messages of a flush. */
  function RingAfter(encodes: Frame -> bool, channel: string, msgs: seq<Pending>, n: nat, first: nat,
                     room: nat, ring: seq<Frame>): seq<Frame>
    requires n <= |msgs|
  {
    if n == 0 then ring
    else
      var f := PublishFrame(channel, msgs[n - 1], first + n - 1);
      var before := RingAfter(encodes, channel, msgs, n - 1, first, room, ring);
      if encodes(f) then Offer(room, before, f) else before
  }

  lemma {:induction false} RingAfterOffers(encodes: Frame -> bool, channel: string, msgs: seq<Pending>, n: nat,
                                           first: nat, room: nat, ring: seq<Frame>)
    requires n <= |msgs|
    ensures RingAfter(encodes, channel, msgs, n, first, room, ring)
         == OfferAll(room, ring, Frames(encodes, channel, msgs[..n], first))
  {
    if n > 0 {
      var f := PublishFrame(channel, msgs[n - 1], first + n - 1);
      var before := Frames(encodes, channel, msgs[..n - 1], first);
      RingAfterOffers(encodes, channel, msgs, n - 1, first, room, ring);
      assert msgs[..n][..n - 1] == msgs[..n - 1];
      assert Frames(encodes, channel, msgs[..n], first) == before + if encodes(f) then [f] else [];
      OfferSnoc(room, ring, before, f);
      assert before + [] == before;
    }
  }

  /** The frames of all messages, with consecutive serials. */
  function AllFrames(channel: string, msgs: seq<Pending>, first: nat): seq<Frame>
  {
    seq(|msgs|, k requires 0 <= k < |msgs| => PublishFrame(channel, msgs[k], first + k))
  }

  /** When the frames of the messages encode, none is left out. */
  lemma {:induction false} FramesAreConsecutive(encodes: Frame -> bool, channel: string, msgs: seq<Pending>, first: nat)
    requires forall f :: f in AllFrames(channel, msgs, first) ==> encodes(f)
    ensures Frames(encodes, channel, msgs, first) == AllFrames(channel, msgs, first)
  {
    if msgs != [] {
      var n := |msgs| - 1;
      var all := AllFrames(channel, msgs, first);
      assert AllFrames(channel, msgs[..n], first) == all[..n];
      assert all[n] in all;
      FramesAreConsecutive(encodes, channel, msgs[..n], first);
    }
  }

  /** So, if the frames of the queue encode, a flush appends exactly the longest prefix of them that fits. */
  lemma FlushTakesPrefix(encodes: Frame -> bool, channel: string, msgs: seq<Pending>, first: nat,
                         room: nat, ring: seq<Frame>)
    requires |ring| <= room
    ensures var all, free := AllFrames(channel, msgs, first), room - |ring|;
            (forall f :: f in all ==> encodes(f)) ==>
              OfferAll(room, ring, Frames(encodes, channel, msgs, first))
              == ring + all[..if |all| <= free then |all| else free]
  {
    var all := AllFrames(channel, msgs, first);
    if forall f :: f in all ==> encodes(f) {
      FramesAreConsecutive(encodes, channel, msgs, first);
      OfferTakesPrefix(room, ring, all);
    }
  }

  /**
   * A publish accepted while attaching, then ATTACHED: the frame that the caller asked for follows those queued
   * before, with the next serial, if there is room for it.
   */
  method PublishThenAttached(c: Channel, link: Link, msg: Option<string>, data: Option<string>) returns (rc: Rc)
    requires c.Valid() && link.Valid() && c.Apart(link) && c.state == Attaching
    requires forall f :: f in AllFrames(c.name, c.queue.contents, link.serial) ==> link.encodes(f)
    requires link.encodes(Publish(c.name, Arrives(msg), Arrives(data), link.serial + |c.queue.contents|))
    modifies c`state, c`reattachPending, c.queue, c.queue.buf, link`serial,
             link.ring`head, link.ring`contents, link.ring.buf
    ensures c.Valid() && link.Valid() && c.View() == Chan(Attached, false, [])
    ensures rc == if |old(c.queue.contents)| < c.QueueRoom() then OK else ErrCapacity
    ensures var n := |old(c.queue.contents)|;
            var at := |old(link.ring.contents)| + n;
            rc == OK ==>
              && link.serial == old(link.serial) + n + 1
              && |link.ring.contents| <= link.Room()
              && (at < link.Room() ==>
                    |link.ring.contents| == at + 1
                    && link.ring.contents[at] == Publish(c.name, Arrives(msg), Arrives(data), old(link.serial) + n))
  {
    ghost var before, first, ring := c.queue.contents, link.serial, link.ring.contents;
    rc := c.PublishCall(link, msg, data);
    ghost var queued := c.queue.contents;
    if rc == OK {
      QueuedLast(link.encodes, c.name, before, msg, data, first);
      assert queued == before + [Stored(msg, data)];
      FlushTakesPrefix(link.encodes, c.name, queued, first, link.Room(), ring);
    }
    c.OnAttached(link);
  }

  lemma {:induction false} QueuedLast(encodes: Frame -> bool, channel: string, before: seq<Pending>,
                                      msg: Option<string>, data: Option<string>, first: nat)
    requires forall f :: f in AllFrames(channel, before, first) ==> encodes(f)
    requires encodes(Publish(channel, Arrives(msg), Arrives(data), first + |before|))
    ensures var all := AllFrames(channel, before + [Stored(msg, data)], first);
            && |all| == |before| + 1
            && all[|before|] == Publish(channel, Arrives(msg), Arrives(data), first + |before|)
            && forall f :: f in all ==> encodes(f)
  {
    var all := AllFrames(channel, before + [Stored(msg, data)], first);
    QueuedIsSentAsGiven(channel, msg, data, first + |before|);
    assert all == AllFrames(channel, before, first) + [all[|before|]];
  }

  // ---------------------------------------------------------------- the client's channel list

  /** No channel is listed twice. */
  ghost predicate Separate(channels: seq<Channel>)
  {
    forall i, j :: 0 <= i < j < |channels| ==> channels[i] != channels[j]
  }

  /** The channels' states are `was`. */
  ghost predicate Showing(channels: seq<Channel>, was: seq<Chan>)
    reads channels
    reads set i | 0 <= i < |channels| :: channels[i].queue
    reads set i | 0 <= i < |channels| :: channels[i].queue.buf
  {
    |was| == |channels| && forall i :: 0 <= i < |channels| ==> channels[i].Valid() && channels[i].View() == was[i]
  }

  /** What a drop makes of each channel; the room in the queues plays no part. */
  function AllDropped(was: seq<Chan>): (now: seq<Chan>)
    ensures |now| == |was|
  {
    seq(|was|, i requires 0 <= i < |was| => Step(0, was[i], Dropped))
  }

  /** Every channel is told of a lost connection. */
  method DropAll(channels: seq<Channel>, ghost was: seq<Chan>)
    requires Separate(channels) && Showing(channels, was)
    modifies channels`state, channels`reattachPending
    ensures Showing(channels, AllDropped(was))
  {
    ghost var done := AllDropped(was);
    ghost var now := was;
    for n := 0 to |channels|
      invariant Showing(channels, now)
      invariant forall i :: 0 <= i < |was| ==> now[i] == if i < n then done[i] else was[i]
    {
      DropNth(channels, now, n);
      now := now[n := done[n]];
    }
    assert now == done;
  }

  method DropNth(channels: seq<Channel>, ghost was: seq<Chan>, n: nat)
    requires Separate(channels) && Showing(channels, was) && n < |channels|
    modifies {channels[n]}`state, {channels[n]}`reattachPending
    ensures Showing(channels, was[n := Step(0, was[n], Dropped)])
  {
    channels[n].OnDisconnect();
  }

  /** A channel comes back if it is flagged and its ATTACH encodes. */
  predicate Returns(encodes: Frame -> bool, channel: Channel, c: Chan)
  {
    c.reattach && encodes(Attach(channel.name))
  }

  function AllReattached(encodes: Frame -> bool, channels: seq<Channel>, was: seq<Chan>): (now: seq<Chan>)
    requires |was| == |channels|
    ensures |now| == |was|
  {
    seq(|was|, i requires 0 <= i < |was| =>
      if Returns(encodes, channels[i], was[i]) then Step(0, was[i], Reattached) else was[i])
  }

  /** The ATTACH frames that a reattach wants to send, in channel order. */
  function Wanted(encodes: Frame -> bool, channels: seq<Channel>, was: seq<Chan>): seq<Frame>
    requires |was| == |channels|
  {
    if channels == [] then []
    else
      var n := |channels| - 1;
      Wanted(encodes, channels[..n], was[..n])
      + if Returns(encodes, channels[n], was[n]) then [Attach(channels[n].name)] else []
  }

  lemma WantedStep(encodes: Frame -> bool, channels: seq<Channel>, was: seq<Chan>, n: nat, room: nat, ring: seq<Frame>)
    requires |was| == |channels| && n < |channels|
    ensures var before := OfferAll(room, ring, Wanted(encodes, channels[..n], was[..n]));
            OfferAll(room, ring, Wanted(encodes, channels[..n + 1], was[..n + 1])) ==
            if Returns(encodes, channels[n], was[n]) then Offer(room, before, Attach(channels[n].name)) else before
  {
    assert channels[..n + 1][..n] == channels[..n] && was[..n + 1][..n] == was[..n];
    var before := Wanted(encodes, channels[..n], was[..n]);
    OfferSnoc(room, ring, before, Attach(channels[n].name));
    assert before + [] == before;
  }

  lemma {:induction false} WantedPrefix(encodes: Frame -> bool, channels: seq<Channel>, was: seq<Chan>, n: nat)
    requires |was| == |channels| && n < |channels|
    ensures var before, all := Wanted(encodes, channels[..n], was[..n]), Wanted(encodes, channels, was);
            && before <= all
            && (Returns(encodes, channels[n], was[n]) ==>
                  |before| < |all| && all[|before|] == Attach(channels[n].name))
    decreases |channels|
  {
    var last := |channels| - 1;
    if n < last {
      WantedPrefix(encodes, channels[..last], was[..last], n);
      assert channels[..last][..n] == channels[..n] && was[..last][..n] == was[..n];
    }
  }

  /** The place that the ATTACH of channel `n` takes in the ring, or would take if there was room. */
  function PlaceOf(encodes: Frame -> bool, channels: seq<Channel>, was: seq<Chan>, ring: seq<Frame>, n: nat): nat
    requires |was| == |channels| && n < |channels|
  {
    |ring| + |Wanted(encodes, channels[..n], was[..n])|
  }

  /**
   * Of the channels that come back, exactly those whose place lies within the ring have their ATTACH in it; the
   * others are attaching with nothing sent.
   */
  ghost predicate SentIfRoom(encodes: Frame -> bool, channels: seq<Channel>, was: seq<Chan>, room: nat,
                             ring: seq<Frame>, now: seq<Frame>)
    requires |was| == |channels|
  {
    forall n :: 0 <= n < |channels| && Returns(encodes, channels[n], was[n]) ==>
      var at := PlaceOf(encodes, channels, was, ring, n);
      at < room <==> at < |now| && now[at] == Attach(channels[n].name)
  }

  lemma {:induction false} WantedSentIfRoom(encodes: Frame -> bool, channels: seq<Channel>, was: seq<Chan>, room: nat,
                                            ring: seq<Frame>)
    requires |was| == |channels| && |ring| <= room
    ensures var now := OfferAll(room, ring, Wanted(encodes, channels, was));
            |now| <= room && SentIfRoom(encodes, channels, was, room, ring, now)
  {
    var all := Wanted(encodes, channels, was);
    OfferTakesPrefix(room, ring, all);
    forall n | 0 <= n < |channels| && Returns(encodes, channels[n], was[n])
      ensures PlaceOf(encodes, channels, was, ring, n) < |ring| + |all|
      ensures all[PlaceOf(encodes, channels, was, ring, n) - |ring|] == Attach(channels[n].name)
    {
      WantedPrefix(encodes, channels, was, n);
    }
  }

  /** With a full ring nothing is sent, and every channel that comes back is attaching and no longer flagged. */
  lemma {:induction false} FullRingSendsNothing(encodes: Frame -> bool, channels: seq<Channel>, was: seq<Chan>,
                                                room: nat, ring: seq<Frame>)
    requires |was| == |channels| && |ring| == room
    ensures OfferAll(room, ring, Wanted(encodes, channels, was)) == ring
    ensures forall n :: 0 <= n < |channels| && Returns(encodes, channels[n], was[n]) ==>
              AllReattached(encodes, channels, was)[n] == Chan(Attaching, false, was[n].pending)
  {
    OfferTakesPrefix(room, ring, Wanted(encodes, channels, was));
  }

  /** One channel of a reattach. */
  method ReattachNth(channels: seq<Channel>, link: Link, ghost was: seq<Chan>, n: nat)
    requires Separate(channels) && Showing(channels, was) && n < |channels|
    requires link.Valid() && forall i :: 0 <= i < |channels| ==> channels[i].Apart(link)
    modifies {channels[n]}`state, {channels[n]}`reattachPending, link.ring`head, link.ring`contents, link.ring.buf
    ensures link.Valid()
    ensures var back := Returns(link.encodes, channels[n], was[n]);
            && Showing(channels, if back then was[n := Step(0, was[n], Reattached)] else was)
            && link.ring.contents == if back then Offer(link.Room(), old(link.ring.contents), Attach(channels[n].name))
                                     else old(link.ring.contents)
  {
    assert channels[n].View() == was[n];
    if channels[n].reattachPending {
      if link.encodes(Attach(channels[n].name)) {
        var ok := link.ring.Enqueue(Attach(channels[n].name));
        channels[n].SetAttaching();
      }
    }
  }

  /**
   * CONNECTED: every flagged channel whose ATTACH encodes becomes attaching, whether or not the ring had
   * room for the frame; every other channel is left alone. The ring takes the ATTACH frames in channel order
   * as far as they fit, which says of each channel whether its ATTACH is sent.
   */
  method ReattachPending(channels: seq<Channel>, link: Link, ghost was: seq<Chan>)
    requires Separate(channels) && Showing(channels, was)
    requires link.Valid() && forall i :: 0 <= i < |channels| ==> channels[i].Apart(link)
    modifies channels`state, channels`reattachPending, link.ring`head, link.ring`contents, link.ring.buf
    ensures link.Valid() && Showing(channels, AllReattached(link.encodes, channels, was))
    ensures link.ring.contents == OfferAll(link.Room(), old(link.ring.contents), Wanted(link.encodes, channels, was))
    ensures SentIfRoom(link.encodes, channels, was, link.Room(), old(link.ring.contents), link.ring.contents)
  {
    ghost var ring, done := link.ring.contents, AllReattached(link.encodes, channels, was);
    ghost var now := was;
    for n := 0 to |channels|
      invariant link.Valid() && Showing(channels, now)
      invariant forall i :: 0 <= i < |was| ==> now[i] == if i < n then done[i] else was[i]
      invariant link.ring.contents == OfferAll(link.Room(), ring, Wanted(link.encodes, channels[..n], was[..n]))
    {
      WantedStep(link.encodes, channels, was, n, link.Room(), ring);
      ReattachNth(channels, link, now, n);
      now := now[n := done[n]];
    }
    assert now == done;
    assert channels[..|channels|] == channels && was[..|channels|] == was;
    WantedSentIfRoom(link.encodes, channels, was, link.Room(), ring);
  }

  /**
   * A lost connection, any number of failed attempts, then CONNECTED: exactly the channels that were live at
   * the loss, or had been flagged before, come back as attaching (if their ATTACH encodes), with their queues
   * intact; the others are left detached.
   */
  method LoseAndRecover(channels: seq<Channel>, link: Link, failures: nat, ghost was: seq<Chan>)
    requires Separate(channels) && Showing(channels, was)
    requires link.Valid() && forall i :: 0 <= i < |channels| ==> channels[i].Apart(link)
    modifies channels`state, channels`reattachPending, link.ring`head, link.ring`contents, link.ring.buf
    ensures link.Valid() && forall i :: 0 <= i < |channels| ==> channels[i].Valid()
    ensures forall i :: 0 <= i < |channels| ==>
              var lost := was[i].reattach || IsLive(was[i].state);
              var back := lost && link.encodes(Attach(channels[i].name));
              channels[i].View() == Chan(if back then Attaching else Detached, lost && !back, was[i].pending)
    ensures link.ring.contents
         == OfferAll(link.Room(), old(link.ring.contents), Wanted(link.encodes, channels, AllDropped(was)))
    ensures SentIfRoom(link.encodes, channels, AllDropped(was), link.Room(),
                       old(link.ring.contents), link.ring.contents)
  {
    DropAll(channels, was);
    assert AllDropped(AllDropped(was)) == AllDropped(was);
    for n := 0 to failures
      invariant link.Valid() && link.ring.contents == old(link.ring.contents)
      invariant Showing(channels, AllDropped(was))
    {
      DropAll(channels, AllDropped(was));
    }
    ReattachPending(channels, link, AllDropped(was));
  }
}
