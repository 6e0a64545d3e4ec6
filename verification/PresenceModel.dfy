/** The presence set as a map of members, and what SYNC pages and PRESENCE frames do to it. */
module PresenceModel {
  import opened Bytes
  import opened P = ProbeTable
  import H = HashMap

  datatype Action = Absent | Present | Enter | Leave | Update | Unknown(code: int)

  datatype Msg = Msg(action: Action, clientId: Key, connectionId: seq<byte>, data: seq<byte>, timestamp: int)

  /** A member's message, as stored, and whether a running sync has yet to see it. */
  datatype Entry = Entry(msg: Msg, stale: bool)

  type View = map<Key, Entry>

  datatype State = State(view: View, syncing: bool)

  /** A PRESENCE frame, or a SYNC page with its serial; ATTACHED with HAS_PRESENCE counts as a SYNC page. */
  datatype Frame = Presence(msgs: seq<Msg>) | Sync(msgs: seq<Msg>, serial: seq<byte>)

  predicate IsUpsert(a: Action) { a.Enter? || a.Present? || a.Update? }

  predicate IsRemoval(a: Action) { a.Absent? || a.Leave? }

  /** Messages are stored with action PRESENT. */
  function Normal(m: Msg): Msg
  {
    m.(action := Present)
  }

  const COLON: byte := 58

  /** The position of the first colon, or the length. */
  function ColonAt(s: seq<byte>): (n: nat)
    ensures n <= |s|
    ensures forall k :: 0 <= k < n ==> s[k] != COLON
    ensures n < |s| ==> s[n] == COLON
  {
    if s == [] || s[0] == COLON then 0 else 1 + ColonAt(s[1..])
  }

  /** A page is the last one unless its serial has a non-empty cursor after the first colon. */
  predicate IsLastPage(serial: seq<byte>)
  {
    ColonAt(serial) + 1 >= |serial|
  }

  // ---------------------------------------------------------------- one frame

  /** What a frame asks of the set: to put a member or to delete one. */
  datatype Event = Put(msg: Msg) | Del(id: Key)

  function MessageEvents(msgs: seq<Msg>): seq<Event>
  {
    if msgs == [] then []
    else
      (if IsUpsert(msgs[0].action) then [Put(Normal(msgs[0]))]
       else if IsRemoval(msgs[0].action) then [Del(msgs[0].clientId)]
       else [])
      + MessageEvents(msgs[1..])
  }

  /** A SYNC page puts every one of its entries, whatever its action. */
  function PageEvents(msgs: seq<Msg>): seq<Event>
  {
    if msgs == [] then [] else [Put(Normal(msgs[0]))] + PageEvents(msgs[1..])
  }

  function EventsOf(f: Frame): seq<Event>
  {
    if f.Presence? then MessageEvents(f.msgs) else PageEvents(f.msgs)
  }

  /** A new member is refused at the load cap of the index. */
  predicate Accepts(cap: nat, v: View, id: Key)
  {
    id in v || !H.AtLoadCap(|v|, cap)
  }

  function ApplyOne(cap: nat, v: View, e: Event): View
  {
    match e
    case Put(m) => if Accepts(cap, v, m.clientId) then v[m.clientId := Entry(m, false)] else v
    case Del(id) => v - {id}
  }

  function Apply(cap: nat, v: View, es: seq<Event>): View
    decreases |es|
  {
    if es == [] then v else Apply(cap, ApplyOne(cap, v, es[0]), es[1..])
  }

  /** Everything stale, as at the start of a sync. */
  function Mark(v: View): View
  {
    map id | id in v :: Entry(v[id].msg, true)
  }

  /** What a finished sync keeps. */
  function Sweep(v: View): View
  {
    map id | id in v && !v[id].stale :: v[id]
  }

  /** The view in which a SYNC page is applied. */
  function Opened(s: State): View
  {
    if s.syncing then s.view else Mark(s.view)
  }

  function After(cap: nat, s: State, f: Frame): State
  {
    match f
    case Presence(_) => State(Apply(cap, s.view, EventsOf(f)), s.syncing)
    case Sync(_, serial) =>
      var v := Apply(cap, Opened(s), EventsOf(f));
      if IsLastPage(serial) then State(Sweep(v), false) else State(v, true)
  }

  /** `leaves` has one LEAVE for each stale member of `v`, with the member's own message, and nothing else. */
  ghost predicate LeavesOf(v: View, leaves: seq<Msg>)
  {
    && (forall i :: 0 <= i < |leaves| ==>
          var id := leaves[i].clientId;
          id in v && v[id].stale && leaves[i] == v[id].msg.(action := Leave))
    && (forall i, j :: 0 <= i < j < |leaves| ==> leaves[i].clientId != leaves[j].clientId)
    && (forall id :: id in v && v[id].stale ==> exists i :: 0 <= i < |leaves| && leaves[i].clientId == id)
  }

  function Known(msgs: seq<Msg>): seq<Msg>
  {
    if msgs == [] then []
    else (if IsUpsert(msgs[0].action) || IsRemoval(msgs[0].action) then [msgs[0]] else []) + Known(msgs[1..])
  }

  /** What subscribers are told of a frame; only the order of synthesised leaves is open. */
  ghost predicate Tells(cap: nat, s: State, f: Frame, notes: seq<Msg>)
  {
    match f
    case Presence(msgs) => notes == Known(msgs)
    case Sync(msgs, serial) =>
      && msgs <= notes
      && (if IsLastPage(serial) then LeavesOf(Apply(cap, Opened(s), EventsOf(f)), notes[|msgs|..])
          else notes == msgs)
  }

  /** What every reachable state keeps: stored actions are PRESENT, staleness only during a sync, the cap. */
  ghost predicate Invariant(cap: nat, s: State)
  {
    && (forall id :: id in s.view ==> s.view[id].msg.action == Present && s.view[id].msg.clientId == id)
    && (!s.syncing ==> forall id :: id in s.view ==> !s.view[id].stale)
    && |s.view| * 4 < cap * 3 + 4
  }

  // ---------------------------------------------------------------- single messages and serials

  /** A page without a colon in its serial is the last one, and one with a colon exactly if nothing follows it. */
  lemma {:induction false} SerialEnds(prefix: seq<byte>, cursor: seq<byte>)
    requires 58 !in prefix
    ensures IsLastPage(prefix)
    ensures IsLastPage(prefix + [58] + cursor) <==> cursor == []
  {
    ColonAfter(prefix, [58] + cursor);
    ColonAfter(prefix, []);
    assert prefix + [58] + cursor == prefix + ([58] + cursor) && prefix + [] == prefix;
  }

  lemma {:induction false} ColonAfter(prefix: seq<byte>, rest: seq<byte>)
    requires 58 !in prefix
    ensures ColonAt(prefix + rest) == |prefix| + ColonAt(rest)
  {
    if prefix == [] {
      assert [] + rest == rest;
    } else {
      assert (prefix + rest)[1..] == prefix[1..] + rest;
      ColonAfter(prefix[1..], rest);
    }
  }

  /** A SYNC page goes on with the sync exactly if its serial has a cursor; else it ends and what is stale goes. */
  lemma {:induction false} CursorGoesOn(cap: nat, s: State, msgs: seq<Msg>, prefix: seq<byte>, cursor: seq<byte>)
    requires 58 !in prefix
    ensures var put := Apply(cap, if s.syncing then s.view else Mark(s.view), PageEvents(msgs));
            var swept := map id | id in put && !put[id].stale :: put[id];
            && After(cap, s, Sync(msgs, prefix)) == State(swept, false)
            && After(cap, s, Sync(msgs, prefix + [58] + cursor)) ==
               if cursor == [] then State(swept, false) else State(put, true)
  {
    SerialEnds(prefix, cursor);
  }

  /** What one message of each kind does to the set and what is told of it. */
  lemma {:induction false} OneMessage(cap: nat, s: State, m: Msg, notes: seq<Msg>)
    requires Tells(cap, s, Presence([m]), notes)
    ensures m.action.Enter? || m.action.Present? || m.action.Update? ==>
              && notes == [m]
              && After(cap, s, Presence([m])) ==
                 if m.clientId in s.view || |s.view| * 4 < cap * 3
                 then s.(view := s.view[m.clientId := Entry(m.(action := Present), false)]) else s
    ensures m.action.Leave? || m.action.Absent? ==>
              notes == [m] && After(cap, s, Presence([m])) == s.(view := s.view - {m.clientId})
    ensures m.action.Unknown? ==> notes == [] && After(cap, s, Presence([m])) == s
  {
    assert [m][1..] == [];
    var es := MessageEvents([m]);
    assert Known([m]) == (if m.action.Unknown? then [] else [m]) + Known([]);
    if m.action.Unknown? {
      assert es == [] + MessageEvents([]);
    } else {
      var e := if IsUpsert(m.action) then Put(Normal(m)) else Del(m.clientId);
      assert es == [e] + MessageEvents([]) && es[1..] == [] && es[0] == e;
      assert Apply(cap, s.view, es) == Apply(cap, ApplyOne(cap, s.view, e), []);
    }
  }

  // ---------------------------------------------------------------- the invariant

  lemma SizeAfterPut(v: View, id: Key, e: Entry)
    ensures |v[id := e]| == if id in v then |v| else |v| + 1
  {
  }

  lemma SizeOfSubset(v: View, w: View)
    requires w.Keys <= v.Keys
    ensures |w| <= |v|
  {
    SubsetSize(w.Keys, v.Keys);
    assert |w| == |w.Keys| && |v| == |v.Keys|;
  }

  lemma {:induction false} SubsetSize(a: set<Key>, b: set<Key>)
    requires a <= b
    ensures |a| <= |b|
    decreases a
  {
    if a != {} {
      var x :| x in a;
      SubsetSize(a - {x}, b - {x});
    }
  }

  /** Stored as PRESENT under its own id. */
  ghost predicate Stored(v: View)
  {
    forall id :: id in v ==> v[id].msg.action == Present && v[id].msg.clientId == id
  }

  ghost predicate AllNormal(es: seq<Event>)
  {
    forall i :: 0 <= i < |es| && es[i].Put? ==> es[i].msg.action == Present
  }

  lemma {:induction false} EventsAreNormal(msgs: seq<Msg>)
    ensures AllNormal(MessageEvents(msgs)) && AllNormal(PageEvents(msgs))
  {
    if msgs != [] {
      EventsAreNormal(msgs[1..]);
    }
  }

  lemma {:induction false} ApplyKeeps(cap: nat, v: View, es: seq<Event>)
    requires Stored(v) && |v| * 4 < cap * 3 + 4 && AllNormal(es)
    ensures var w := Apply(cap, v, es); Stored(w) && |w| * 4 < cap * 3 + 4
    ensures (forall id :: id in v ==> !v[id].stale) ==>
              forall id :: id in Apply(cap, v, es) ==> !Apply(cap, v, es)[id].stale
    decreases |es|
  {
    if es != [] {
      var w := ApplyOne(cap, v, es[0]);
      match es[0] {
        case Put(m) => SizeAfterPut(v, m.clientId, Entry(m, false));
        case Del(id) => SizeOfSubset(v, w);
      }
      ApplyKeeps(cap, w, es[1..]);
    }
  }

  lemma StepKeepsInvariant(cap: nat, s: State, e: Event)
    requires Invariant(cap, s) && (e.Put? ==> e.msg.action == Present)
    ensures Invariant(cap, State(ApplyOne(cap, s.view, e), s.syncing))
  {
  }

  /** Every frame keeps the invariant, so it holds in every reachable state. */
  lemma AfterKeepsInvariant(cap: nat, s: State, f: Frame)
    requires Invariant(cap, s)
    ensures Invariant(cap, After(cap, s, f))
  {
    EventsAreNormal(f.msgs);
    if f.Presence? {
      ApplyKeeps(cap, s.view, EventsOf(f));
    } else {
      SizeOfSubset(s.view, Mark(s.view));
      ApplyKeeps(cap, Opened(s), EventsOf(f));
      var v := Apply(cap, Opened(s), EventsOf(f));
      SizeOfSubset(v, Sweep(v));
    }
  }

  // ---------------------------------------------------------------- a complete sync converges

  /** The members that events leave behind when nothing was there before. */
  function Live(es: seq<Event>): map<Key, Msg>
  {
    if es == [] then map[]
    else
      match es[|es| - 1]
      case Put(m) => Live(es[..|es| - 1])[m.clientId := m]
      case Del(id) => Live(es[..|es| - 1]) - {id}
  }

  function EventId(e: Event): Key
  {
    match e case Put(m) => m.clientId case Del(id) => id
  }

  /** The ids that events put or delete. */
  function Touched(es: seq<Event>): set<Key>
  {
    set i | 0 <= i < |es| :: EventId(es[i])
  }

  /** No insertion of the run meets the load cap. */
  predicate AllAccepted(cap: nat, v: View, es: seq<Event>)
    decreases |es|
  {
    es == [] ||
    ((es[0].Put? ==> Accepts(cap, v, es[0].msg.clientId)) && AllAccepted(cap, ApplyOne(cap, v, es[0]), es[1..]))
  }

  function Fresh(m: map<Key, Msg>): View
  {
    map id | id in m :: Entry(m[id], false)
  }

  lemma {:induction false} ApplySnoc(cap: nat, v: View, es: seq<Event>, e: Event)
    ensures Apply(cap, v, es + [e]) == ApplyOne(cap, Apply(cap, v, es), e)
    ensures AllAccepted(cap, v, es + [e]) ==>
              AllAccepted(cap, v, es) && (e.Put? ==> Accepts(cap, Apply(cap, v, es), e.msg.clientId))
    decreases |es|
  {
    if es == [] {
      assert [] + [e] == [e];
    } else {
      assert (es + [e])[1..] == es[1..] + [e];
      ApplySnoc(cap, ApplyOne(cap, v, es[0]), es[1..], e);
    }
  }

  lemma SplitPut(v: View, touched: set<Key>, live: map<Key, Msg>, m: Msg)
    ensures ((v - touched) + Fresh(live))[m.clientId := Entry(m, false)]
         == (v - (touched + {m.clientId})) + Fresh(live[m.clientId := m])
  {
  }

  lemma SplitDel(v: View, touched: set<Key>, live: map<Key, Msg>, id: Key)
    ensures ((v - touched) + Fresh(live)) - {id} == (v - (touched + {id})) + Fresh(live - {id})
  {
  }

  lemma TouchedSnoc(es: seq<Event>, e: Event)
    ensures Touched(es + [e]) == Touched(es) + {EventId(e)}
  {
    var all := es + [e];
    assert forall i :: 0 <= i < |es| ==> all[i] == es[i];
    assert all[|es|] == e;
  }

  /** After any events, the untouched members are as they were and the others are what the events say. */
  lemma {:induction false} ApplySplits(cap: nat, v: View, es: seq<Event>)
    requires AllAccepted(cap, v, es)
    ensures Live(es).Keys <= Touched(es)
    ensures Apply(cap, v, es) == (v - Touched(es)) + Fresh(Live(es))
  {
    if es == [] {
      assert v - {} == v && Touched(es) == {};
    } else {
      var init, e := es[..|es| - 1], es[|es| - 1];
      assert es == init + [e];
      ApplySnoc(cap, v, init, e);
      ApplySplits(cap, v, init);
      TouchedSnoc(init, e);
      match e {
        case Put(m) => SplitPut(v, Touched(init), Live(init), m);
        case Del(id) => SplitDel(v, Touched(init), Live(init), id);
      }
    }
  }

  function AllEvents(fs: seq<Frame>): seq<Event>
  {
    if fs == [] then [] else AllEvents(fs[..|fs| - 1]) + EventsOf(fs[|fs| - 1])
  }

  function Run(cap: nat, s: State, fs: seq<Frame>): State
  {
    if fs == [] then s else After(cap, Run(cap, s, fs[..|fs| - 1]), fs[|fs| - 1])
  }

  /** Pages of one sync with any PRESENCE frames between them, the last page excluded. */
  predicate OpenSync(fs: seq<Frame>)
  {
    && fs != [] && fs[0].Sync?
    && forall i :: 0 <= i < |fs| && fs[i].Sync? ==> !IsLastPage(fs[i].serial)
  }

  lemma {:induction false} ApplyAppend(cap: nat, v: View, xs: seq<Event>, ys: seq<Event>)
    ensures Apply(cap, v, xs + ys) == Apply(cap, Apply(cap, v, xs), ys)
    decreases |xs|
  {
    if xs == [] {
      assert [] + ys == ys;
    } else {
      assert (xs + ys)[1..] == xs[1..] + ys;
      ApplyAppend(cap, ApplyOne(cap, v, xs[0]), xs[1..], ys);
    }
  }

  lemma {:induction false} RunOfOpenSync(cap: nat, s: State, fs: seq<Frame>)
    requires OpenSync(fs)
    ensures Run(cap, s, fs) == State(Apply(cap, Opened(s), AllEvents(fs)), true)
  {
    var init, f := fs[..|fs| - 1], fs[|fs| - 1];
    if init == [] {
      assert AllEvents(fs) == EventsOf(f);
    } else {
      RunOfOpenSync(cap, s, init);
      ApplyAppend(cap, Opened(s), AllEvents(init), EventsOf(f));
    }
  }

  /** A complete sync: open pages (perhaps none) and a last page. */
  predicate CompleteSync(fs: seq<Frame>)
  {
    && fs != []
    && fs[|fs| - 1].Sync? && IsLastPage(fs[|fs| - 1].serial)
    && (|fs| == 1 || OpenSync(fs[..|fs| - 1]))
  }

  /** No sync was running, or the one that was has not yet seen any of these members. */
  predicate NothingSeen(s: State, touched: set<Key>)
  {
    !s.syncing || forall id :: id in s.view && id !in touched ==> s.view[id].stale
  }

  /**
   * After a complete sync the members are those put since its first page and not deleted later, with their last
   * message, and those that a sync still running at its start had seen. `syncing` survives a disconnect, so
   * the sync converges exactly if there are none of the latter.
   */
  lemma {:induction false} CompleteSyncConverges(cap: nat, s: State, fs: seq<Frame>)
    requires CompleteSync(fs) && AllAccepted(cap, Opened(s), AllEvents(fs))
    ensures var es := AllEvents(fs);
            && BeforeSweep(cap, s, fs) == (Opened(s) - Touched(es)) + Fresh(Live(es))
            && Run(cap, s, fs) == State(Sweep(Opened(s) - Touched(es)) + Fresh(Live(es)), false)
            && (Run(cap, s, fs).view == Fresh(Live(es)) <==> NothingSeen(s, Touched(es)))
  {
    var init, f, es := fs[..|fs| - 1], fs[|fs| - 1], AllEvents(fs);
    if init == [] {
      assert [] + EventsOf(f) == EventsOf(f);
    } else {
      RunOfOpenSync(cap, s, init);
      ApplyAppend(cap, Opened(s), AllEvents(init), EventsOf(f));
    }
    ApplySplits(cap, Opened(s), es);
    SweepSplit(Opened(s), Touched(es), Live(es));
    SweptNothing(s, Touched(es), Live(es));
  }

  lemma SweepSplit(v: View, touched: set<Key>, live: map<Key, Msg>)
    ensures Sweep((v - touched) + Fresh(live)) == Sweep(v - touched) + Fresh(live)
  {
  }

  lemma SweptNothing(s: State, touched: set<Key>, live: map<Key, Msg>)
    requires live.Keys <= touched
    ensures Sweep(Opened(s) - touched) + Fresh(live) == Fresh(live) <==> NothingSeen(s, touched)
  {
    var left, f := Sweep(Opened(s) - touched), Fresh(live);
    if NothingSeen(s, touched) {
      assert left == map[];
    } else {
      var id :| id in s.view && id !in touched && !s.view[id].stale;
      assert id in left && id !in f;
    }
  }

  /** The view that the last page of a sync sweeps. */
  function BeforeSweep(cap: nat, s: State, fs: seq<Frame>): View
    requires fs != []
  {
    var f := fs[|fs| - 1];
    Apply(cap, Opened(Run(cap, s, fs[..|fs| - 1])), EventsOf(f))
  }

  /**
   * Exactly the members that no frame of the sync touched, and no earlier page of a sync still running, get a
   * LEAVE, each once, with its own data.
   */
  lemma {:induction false} CompleteSyncLeaves(cap: nat, s: State, fs: seq<Frame>, notes: seq<Msg>)
    requires CompleteSync(fs) && AllAccepted(cap, Opened(s), AllEvents(fs))
    requires Tells(cap, Run(cap, s, fs[..|fs| - 1]), fs[|fs| - 1], notes)
    ensures var leaves := notes[|fs[|fs| - 1].msgs|..];
            && (forall i, j :: 0 <= i < j < |leaves| ==> leaves[i].clientId != leaves[j].clientId)
            && (forall id :: (exists i :: 0 <= i < |leaves| && leaves[i].clientId == id) <==>
                             id in s.view && id !in Touched(AllEvents(fs)) && (!s.syncing || s.view[id].stale))
            && (forall i :: 0 <= i < |leaves| ==>
                  leaves[i].clientId in s.view && leaves[i] == s.view[leaves[i].clientId].msg.(action := Leave))
  {
    CompleteSyncConverges(cap, s, fs);
    ApplySplits(cap, Opened(s), AllEvents(fs));
    var leaves, v := notes[|fs[|fs| - 1].msgs|..], BeforeSweep(cap, s, fs);
    StaleAfterSplit(Opened(s), Touched(AllEvents(fs)), Live(AllEvents(fs)), v);
    assert LeavesOf(v, leaves);
    forall id
      ensures (exists i :: 0 <= i < |leaves| && leaves[i].clientId == id) <==> id in v && v[id].stale
    {
    }
  }

  lemma StaleAfterSplit(v: View, touched: set<Key>, live: map<Key, Msg>, w: View)
    requires live.Keys <= touched && w == (v - touched) + Fresh(live)
    ensures forall id :: id in w && w[id].stale <==> id in v && id !in touched && v[id].stale
    ensures forall id :: id in w && w[id].stale ==> w[id].msg == v[id].msg
  {
  }

  /** A caller's test: room for all ids ever seen means that nothing is refused. */
  lemma {:induction false} RoomMeansAccepted(cap: nat, v: View, es: seq<Event>, ids: set<Key>)
    requires v.Keys <= ids && Touched(es) <= ids && |ids| * 4 <= cap * 3
    ensures AllAccepted(cap, v, es)
    decreases |es|
  {
    if es != [] {
      assert EventId(es[0]) in Touched(es);
      if es[0].Put? && es[0].msg.clientId !in v {
        SubsetSize(v.Keys + {es[0].msg.clientId}, ids);
        assert |v.Keys + {es[0].msg.clientId}| == |v| + 1;
      }
      assert forall i :: 0 <= i < |es| - 1 ==> es[1..][i] == es[i + 1];
      assert forall i :: 0 <= i < |es| ==> EventId(es[i]) in Touched(es);
      RoomMeansAccepted(cap, ApplyOne(cap, v, es[0]), es[1..], ids);
    }
  }

  /**
   * ATTACHED with HAS_PRESENCE is handled as a SYNC page without entries. It begins a sync exactly if its serial
   * has a cursor and no member is already seen by a sync still running. Without a cursor, and so without a
   * serial, it ends a sync, and that empties the set exactly if no member is already seen; those that go
   * are told to leave.
   */
  lemma AttachedIsEmptyPage(cap: nat, s: State, serial: seq<byte>, notes: seq<Msg>)
    requires Tells(cap, s, Sync([], serial), notes)
    ensures var after := After(cap, s, Sync([], serial));
            && (after == State(Opened(s), true) <==> !IsLastPage(serial))
            && (after == State(Mark(s.view), true) <==> !IsLastPage(serial) && NothingSeen(s, {}))
            && (IsLastPage(serial) ==>
                  && after == State(Sweep(Opened(s)), false) && LeavesOf(Opened(s), notes)
                  && (after.view == map[] <==> NothingSeen(s, {})))
    ensures IsLastPage([])
  {
    var v := Opened(s);
    assert Apply(cap, v, EventsOf(Sync([], serial))) == v;
    assert notes[0..] == notes;
    if NothingSeen(s, {}) {
      assert v == Mark(s.view);
      assert Sweep(v) == map[];
    } else {
      var id :| id in s.view && !s.view[id].stale;
      assert id in Sweep(v) && v[id] != Mark(s.view)[id];
    }
  }

  // ---------------------------------------------------------------- replaying the notifications

  function Members(v: View): map<Key, Msg>
  {
    map id | id in v :: v[id].msg
  }

  /** What a subscriber who keeps its own set does with a notification. */
  function ReplayOne(r: map<Key, Msg>, n: Msg): map<Key, Msg>
  {
    if IsUpsert(n.action) then r[n.clientId := Normal(n)]
    else if IsRemoval(n.action) then r - {n.clientId}
    else r
  }

  function Replay(r: map<Key, Msg>, notes: seq<Msg>): map<Key, Msg>
    decreases |notes|
  {
    if notes == [] then r else Replay(ReplayOne(r, notes[0]), notes[1..])
  }

  lemma {:induction false} ReplayAppend(r: map<Key, Msg>, xs: seq<Msg>, ys: seq<Msg>)
    ensures Replay(r, xs + ys) == Replay(Replay(r, xs), ys)
    decreases |xs|
  {
    if xs == [] {
      assert [] + ys == ys;
    } else {
      assert (xs + ys)[1..] == xs[1..] + ys;
      ReplayAppend(ReplayOne(r, xs[0]), xs[1..], ys);
    }
  }

  /** The last message of a list for an id. */
  function LastOf(msgs: seq<Msg>, id: Key): Option<Msg>
  {
    if msgs == [] then None
    else
      var later := LastOf(msgs[1..], id);
      if later.None? && msgs[0].clientId == id then Some(msgs[0]) else later
  }

  /** The last message for an id of those that a replica acts on. */
  function LastKnown(msgs: seq<Msg>, id: Key): Option<Msg>
  {
    LastOf(Known(msgs), id)
  }

  function LastEvent(es: seq<Event>, id: Key): Option<Event>
  {
    if es == [] then None
    else
      var later := LastEvent(es[1..], id);
      if later.None? && EventId(es[0]) == id then Some(es[0]) else later
  }

  /** The ids whose last event is an insertion that the load cap refuses. */
  function RefusedBy(cap: nat, v: View, es: seq<Event>): set<Key>
    decreases |es|
  {
    if es == [] then {}
    else
      var id := EventId(es[0]);
      RefusedBy(cap, ApplyOne(cap, v, es[0]), es[1..])
      + if es[0].Put? && !Accepts(cap, v, id) && LastEvent(es[1..], id).None? then {id} else {}
  }

  function Lookup(r: map<Key, Msg>, id: Key): Option<Msg>
  {
    if id in r then Some(r[id]) else None
  }

  lemma {:induction false} LastKnownStep(msgs: seq<Msg>, id: Key)
    requires msgs != []
    ensures LastKnown(msgs, id) ==
            if LastKnown(msgs[1..], id).Some? then LastKnown(msgs[1..], id)
            else if (IsUpsert(msgs[0].action) || IsRemoval(msgs[0].action)) && msgs[0].clientId == id then Some(msgs[0])
            else None
  {
    if IsUpsert(msgs[0].action) || IsRemoval(msgs[0].action) {
      assert Known(msgs)[1..] == Known(msgs[1..]);
    } else {
      assert Known(msgs) == Known(msgs[1..]);
    }
  }

  lemma {:induction false} ReplicaAfter(r: map<Key, Msg>, msgs: seq<Msg>, id: Key)
    ensures var last := LastKnown(msgs, id);
            Lookup(Replay(r, msgs), id) ==
            if last.None? then Lookup(r, id)
            else if IsUpsert(last.value.action) then Some(Normal(last.value)) else None
    decreases |msgs|
  {
    if msgs != [] {
      LastKnownStep(msgs, id);
      ReplicaAfter(ReplayOne(r, msgs[0]), msgs[1..], id);
    }
  }

  /** What events make of one id. */
  lemma {:induction false} SetAfter(cap: nat, v: View, es: seq<Event>, id: Key)
    ensures var last, w := LastEvent(es, id), Apply(cap, v, es);
            && (last.None? ==> (id in w <==> id in v) && (id in w ==> w[id] == v[id]))
            && (last.Some? && last.value.Del? ==> id !in w)
            && (last.Some? && last.value.Put? && id !in RefusedBy(cap, v, es) ==>
                  id in w && w[id] == Entry(last.value.msg, false))
            && (id in RefusedBy(cap, v, es) ==> id !in w && last.Some? && last.value.Put?)
    decreases |es|
  {
    if es != [] {
      SetAfter(cap, ApplyOne(cap, v, es[0]), es[1..], id);
    }
  }

  lemma {:induction false} LastPageEvent(msgs: seq<Msg>, id: Key)
    ensures LastEvent(PageEvents(msgs), id) ==
            if LastOf(msgs, id).Some? then Some(Put(Normal(LastOf(msgs, id).value))) else None
  {
    if msgs != [] {
      assert PageEvents(msgs)[1..] == PageEvents(msgs[1..]);
      LastPageEvent(msgs[1..], id);
    }
  }

  lemma {:induction false} LastMessageEvent(msgs: seq<Msg>, id: Key)
    ensures var last := LastKnown(msgs, id);
            LastEvent(MessageEvents(msgs), id) ==
            if last.None? then None
            else if IsUpsert(last.value.action) then Some(Put(Normal(last.value))) else Some(Del(id))
  {
    if msgs != [] {
      LastKnownStep(msgs, id);
      LastMessageEvent(msgs[1..], id);
      var es, more := MessageEvents(msgs), MessageEvents(msgs[1..]);
      if IsUpsert(msgs[0].action) || IsRemoval(msgs[0].action) {
        assert es[1..] == more;
      } else {
        assert es == more;
      }
    }
  }

  /** A page deletes nobody, so it refuses only ids that are not members. */
  lemma {:induction false} PageRefusesStrangers(cap: nat, v: View, msgs: seq<Msg>, id: Key)
    requires id in RefusedBy(cap, v, PageEvents(msgs))
    ensures id !in v
    decreases |msgs|
  {
    if msgs != [] {
      var es, e := PageEvents(msgs), Put(Normal(msgs[0]));
      assert es[1..] == PageEvents(msgs[1..]) && es[0] == e;
      if id in RefusedBy(cap, ApplyOne(cap, v, e), es[1..]) {
        PageRefusesStrangers(cap, ApplyOne(cap, v, e), msgs[1..], id);
      }
    }
  }

  lemma {:induction false} KnownTwice(msgs: seq<Msg>)
    ensures Known(Known(msgs)) == Known(msgs)
  {
    if msgs != [] {
      KnownTwice(msgs[1..]);
      if IsUpsert(msgs[0].action) || IsRemoval(msgs[0].action) {
        assert Known(msgs)[1..] == Known(msgs[1..]);
      } else {
        assert Known(msgs) == Known(msgs[1..]);
      }
    }
  }

  /** A PRESENCE frame replays exactly if it refuses no id in the end. */
  lemma {:induction false} MessagesReplayExactly(cap: nat, v: View, msgs: seq<Msg>)
    ensures Replay(Members(v), Known(msgs)) == Members(Apply(cap, v, MessageEvents(msgs))) <==>
            RefusedBy(cap, v, MessageEvents(msgs)) == {}
  {
    var es := MessageEvents(msgs);
    var r, w := Replay(Members(v), Known(msgs)), Members(Apply(cap, v, es));
    KnownTwice(msgs);
    forall id
      ensures Lookup(r, id) == Lookup(w, id) <==> id !in RefusedBy(cap, v, es)
    {
      ReplicaAfter(Members(v), Known(msgs), id);
      LastMessageEvent(msgs, id);
      SetAfter(cap, v, es, id);
    }
    if RefusedBy(cap, v, es) == {} {
      SameLookups(r, w);
    }
  }

  /**
   * A SYNC page and what is told of it agree on an id: a refused one was not announced last, and an accepted one
   * was announced last, by what the page puts last, which may have an action that a replica passes over.
   */
  predicate Agrees(cap: nat, v: View, msgs: seq<Msg>, id: Key)
    requires LastOf(msgs, id).Some?
  {
    var last, known := LastOf(msgs, id).value, LastKnown(msgs, id);
    if id in RefusedBy(cap, v, PageEvents(msgs)) then known.Some? ==> !IsUpsert(known.value.action)
    else if known.None? then id in v && v[id].msg == Normal(last)
    else IsUpsert(known.value.action) && Normal(known.value) == Normal(last)
  }

  ghost predicate PageAgrees(cap: nat, v: View, msgs: seq<Msg>)
  {
    forall id :: LastOf(msgs, id).Some? ==> Agrees(cap, v, msgs, id)
  }

  lemma {:induction false} IdReplaysExactly(cap: nat, v: View, msgs: seq<Msg>, id: Key)
    ensures Lookup(Replay(Members(v), msgs), id) == Lookup(Members(Apply(cap, v, PageEvents(msgs))), id) <==>
            (LastOf(msgs, id).Some? ==> Agrees(cap, v, msgs, id))
  {
    ReplicaAfter(Members(v), msgs, id);
    LastPageEvent(msgs, id);
    SetAfter(cap, v, PageEvents(msgs), id);
    LastKnownIsLast(msgs, id);
    if id in RefusedBy(cap, v, PageEvents(msgs)) {
      PageRefusesStrangers(cap, v, msgs, id);
    }
  }

  lemma {:induction false} LastKnownIsLast(msgs: seq<Msg>, id: Key)
    ensures LastKnown(msgs, id).Some? ==> LastOf(msgs, id).Some?
    ensures var last := LastOf(msgs, id);
            last.Some? && (IsUpsert(last.value.action) || IsRemoval(last.value.action)) ==> LastKnown(msgs, id) == last
  {
    if msgs != [] {
      LastKnownStep(msgs, id);
      LastKnownIsLast(msgs[1..], id);
    }
  }

  /** Replaying a page gives its members exactly if the two agree on every id of it. */
  lemma {:induction false} PageReplaysExactly(cap: nat, v: View, msgs: seq<Msg>)
    ensures Replay(Members(v), msgs) == Members(Apply(cap, v, PageEvents(msgs))) <==> PageAgrees(cap, v, msgs)
  {
    var r, w := Replay(Members(v), msgs), Members(Apply(cap, v, PageEvents(msgs)));
    forall id
      ensures Lookup(r, id) == Lookup(w, id) <==> (LastOf(msgs, id).Some? ==> Agrees(cap, v, msgs, id))
    {
      IdReplaysExactly(cap, v, msgs, id);
    }
    if PageAgrees(cap, v, msgs) {
      SameLookups(r, w);
    }
  }

  /** No message has an action that a replica passes over. */
  predicate AllKnown(msgs: seq<Msg>)
  {
    forall i :: 0 <= i < |msgs| ==> IsUpsert(msgs[i].action) || IsRemoval(msgs[i].action)
  }

  /** Exactly the accepted ids of a page are announced last. */
  ghost predicate AcceptedAnnounced(cap: nat, v: View, msgs: seq<Msg>)
  {
    forall id :: LastOf(msgs, id).Some? ==>
      (IsUpsert(LastOf(msgs, id).value.action) <==> id !in RefusedBy(cap, v, PageEvents(msgs)))
  }

  /** With known actions only, that is when a page agrees. */
  lemma {:induction false} KnownPageAgrees(cap: nat, v: View, msgs: seq<Msg>)
    requires AllKnown(msgs)
    ensures PageAgrees(cap, v, msgs) <==> AcceptedAnnounced(cap, v, msgs)
  {
    forall id | LastOf(msgs, id).Some?
      ensures Agrees(cap, v, msgs, id) <==>
              (IsUpsert(LastOf(msgs, id).value.action) <==> id !in RefusedBy(cap, v, PageEvents(msgs)))
    {
      LastIsOne(msgs, id);
      LastKnownIsLast(msgs, id);
    }
  }

  lemma {:induction false} LastIsOne(msgs: seq<Msg>, id: Key)
    requires LastOf(msgs, id).Some?
    ensures LastOf(msgs, id).value in msgs
  {
    if LastOf(msgs[1..], id).Some? {
      LastIsOne(msgs[1..], id);
    }
  }

  lemma SameLookups(r: map<Key, Msg>, w: map<Key, Msg>)
    requires forall id :: Lookup(r, id) == Lookup(w, id)
    ensures r == w
  {
    forall id
      ensures id in r <==> id in w
      ensures id in r ==> id in w && r[id] == w[id]
    {
      assert Lookup(r, id) == Lookup(w, id);
    }
  }

  lemma {:induction false} ReplayOfLeaves(r: map<Key, Msg>, leaves: seq<Msg>)
    requires forall i :: 0 <= i < |leaves| ==> leaves[i].action == Leave
    ensures Replay(r, leaves) == r - (set i | 0 <= i < |leaves| :: leaves[i].clientId)
    decreases |leaves|
  {
    var ids := set i | 0 <= i < |leaves| :: leaves[i].clientId;
    if leaves == [] {
      assert r - ids == r;
    } else {
      var rest := leaves[1..];
      var others := set i | 0 <= i < |rest| :: rest[i].clientId;
      ReplayOfLeaves(r - {leaves[0].clientId}, rest);
      assert forall i :: 0 <= i < |rest| ==> rest[i] == leaves[i + 1];
      assert ids == {leaves[0].clientId} + others;
    }
  }

  /** Subscribers can follow a frame: it refuses no id in the end, or is a SYNC page that agrees with them. */
  ghost predicate Settles(cap: nat, s: State, f: Frame)
  {
    if f.Presence? then RefusedBy(cap, s.view, EventsOf(f)) == {} else PageAgrees(cap, Opened(s), f.msgs)
  }

  lemma SweepReplaysExactly(v: View, r: map<Key, Msg>, leaves: seq<Msg>)
    requires LeavesOf(v, leaves)
    requires forall id :: id in v && v[id].stale ==> Lookup(r, id) == Lookup(Members(v), id)
    ensures Replay(r, leaves) == Members(Sweep(v)) <==> r == Members(v)
  {
    ReplayOfLeaves(r, leaves);
    var ids := set i | 0 <= i < |leaves| :: leaves[i].clientId;
    var w := Members(v);
    assert forall id :: id in ids <==> id in v && v[id].stale;
    assert Members(Sweep(v)) == w - ids;
    if r - ids == w - ids {
      forall id
        ensures Lookup(r, id) == Lookup(w, id)
      {
        if id !in ids {
          assert Lookup(r - ids, id) == Lookup(w - ids, id);
        }
      }
      SameLookups(r, w);
    }
  }

  /** The notifications of a frame take a replica from the members before to those after exactly if it settles. */
  lemma {:induction false} FrameReplaysExactly(cap: nat, s: State, f: Frame, notes: seq<Msg>)
    requires Tells(cap, s, f, notes)
    ensures Replay(Members(s.view), notes) == Members(After(cap, s, f).view) <==> Settles(cap, s, f)
  {
    if f.Presence? {
      MessagesReplayExactly(cap, s.view, f.msgs);
    } else {
      assert Members(Opened(s)) == Members(s.view);
      PageReplaysExactly(cap, Opened(s), f.msgs);
      var leaves := notes[|f.msgs|..];
      assert notes == f.msgs + leaves;
      if IsLastPage(f.serial) {
        ReplayAppend(Members(s.view), f.msgs, leaves);
        StaleReplays(cap, Opened(s), f.msgs);
        SweepReplaysExactly(Apply(cap, Opened(s), EventsOf(f)), Replay(Members(s.view), f.msgs), leaves);
      }
    }
  }

  /** What is still stale after a page is not on it. */
  lemma {:induction false} StaleReplays(cap: nat, v: View, msgs: seq<Msg>)
    ensures var w := Apply(cap, v, PageEvents(msgs));
            forall id :: id in w && w[id].stale ==> Lookup(Replay(Members(v), msgs), id) == Lookup(Members(w), id)
  {
    var w := Apply(cap, v, PageEvents(msgs));
    forall id | id in w && w[id].stale
      ensures Lookup(Replay(Members(v), msgs), id) == Lookup(Members(w), id)
    {
      LastPageEvent(msgs, id);
      SetAfter(cap, v, PageEvents(msgs), id);
      IdReplaysExactly(cap, v, msgs, id);
    }
  }

  function Flatten(ns: seq<seq<Msg>>): seq<Msg>
  {
    if ns == [] then [] else Flatten(ns[..|ns| - 1]) + ns[|ns| - 1]
  }

  /** `ns` are the notifications of each frame of a run. */
  ghost predicate Told(cap: nat, s: State, fs: seq<Frame>, ns: seq<seq<Msg>>)
  {
    && |ns| == |fs|
    && (fs == [] ||
        var n := |fs| - 1;
        Told(cap, s, fs[..n], ns[..n]) && Tells(cap, Run(cap, s, fs[..n]), fs[n], ns[n]))
  }

  /** Each frame of the run settles in the state it meets. */
  ghost predicate SettledRun(cap: nat, s: State, fs: seq<Frame>)
  {
    fs == [] ||
    var n := |fs| - 1;
    SettledRun(cap, s, fs[..n]) && Settles(cap, Run(cap, s, fs[..n]), fs[n])
  }

  lemma {:induction false} AcceptedRefusesNone(cap: nat, v: View, es: seq<Event>)
    requires AllAccepted(cap, v, es)
    ensures RefusedBy(cap, v, es) == {}
    decreases |es|
  {
    if es != [] {
      AcceptedRefusesNone(cap, ApplyOne(cap, v, es[0]), es[1..]);
    }
  }

  lemma {:induction false} LastEventIsTouched(es: seq<Event>, id: Key)
    ensures LastEvent(es, id).Some? ==> id in Touched(es)
  {
    if es != [] {
      LastEventIsTouched(es[1..], id);
      assert forall i :: 0 <= i < |es| - 1 ==> es[1..][i] == es[i + 1];
      assert EventId(es[0]) in Touched(es);
    }
  }

  /** Messages about `ids` only. */
  predicate Concerns(msgs: seq<Msg>, ids: set<Key>)
  {
    forall i :: 0 <= i < |msgs| ==> msgs[i].clientId in ids
  }

  /** A frame about `ids` only and, if a SYNC page, with known actions only. */
  predicate About(f: Frame, ids: set<Key>)
  {
    Concerns(f.msgs, ids) && (f.Sync? ==> AllKnown(f.msgs))
  }

  lemma {:induction false} EventsConcern(msgs: seq<Msg>, ids: set<Key>)
    requires Concerns(msgs, ids)
    ensures forall i :: 0 <= i < |MessageEvents(msgs)| ==> EventId(MessageEvents(msgs)[i]) in ids
    ensures forall i :: 0 <= i < |PageEvents(msgs)| ==> EventId(PageEvents(msgs)[i]) in ids
  {
    if msgs != [] {
      EventsConcern(msgs[1..], ids);
    }
  }

  lemma {:induction false} KeysAfter(cap: nat, s: State, f: Frame, after: State, ids: set<Key>)
    requires after == After(cap, s, f) && s.view.Keys <= ids && About(f, ids)
    ensures after.view.Keys <= ids
  {
    var v := if f.Sync? then Opened(s) else s.view;
    EventsConcern(f.msgs, ids);
    forall id | id in Apply(cap, v, EventsOf(f))
      ensures id in ids
    {
      SetAfter(cap, v, EventsOf(f), id);
      LastEventIsTouched(EventsOf(f), id);
    }
  }

  /** The last entry of every id announces a member. */
  ghost predicate LastsAnnounce(msgs: seq<Msg>)
  {
    forall id :: LastOf(msgs, id).Some? ==> IsUpsert(LastOf(msgs, id).value.action)
  }


  lemma {:induction false} RoomMeansSettles(cap: nat, s: State, f: Frame, ids: set<Key>)
    requires s.view.Keys <= ids && About(f, ids) && |ids| * 4 <= cap * 3
    ensures Settles(cap, s, f) <==> (f.Sync? ==> LastsAnnounce(f.msgs))
  {
    var v := if f.Sync? then Opened(s) else s.view;
    EventsConcern(f.msgs, ids);
    RoomMeansAccepted(cap, v, EventsOf(f), ids);
    AcceptedRefusesNone(cap, v, EventsOf(f));
    if f.Sync? {
      KnownPageAgrees(cap, v, f.msgs);
    }
  }

  predicate AllAbout(fs: seq<Frame>, ids: set<Key>)
  {
    forall i :: 0 <= i < |fs| ==> About(fs[i], ids)
  }

  /** What each SYNC page says last of an id is that it is there. */
  ghost predicate PagesAnnounce(fs: seq<Frame>)
  {
    forall i :: 0 <= i < |fs| ==> (fs[i].Sync? ==> LastsAnnounce(fs[i].msgs))
  }

  lemma LastFrame(fs: seq<Frame>, ids: set<Key>, n: nat)
    requires |fs| == n + 1
    ensures PagesAnnounce(fs) <==> PagesAnnounce(fs[..n]) && (fs[n].Sync? ==> LastsAnnounce(fs[n].msgs))
    ensures AllAbout(fs, ids) ==> AllAbout(fs[..n], ids) && About(fs[n], ids)
  {
    assert forall i :: 0 <= i < n ==> fs[..n][i] == fs[i];
  }

  lemma {:induction false} KeysAfterRun(cap: nat, s: State, fs: seq<Frame>, ids: set<Key>)
    requires s.view.Keys <= ids && AllAbout(fs, ids)
    ensures Run(cap, s, fs).view.Keys <= ids
  {
    if fs != [] {
      var n := |fs| - 1;
      LastFrame(fs, ids, n);
      KeysAfterRun(cap, s, fs[..n], ids);
      KeysAfter(cap, Run(cap, s, fs[..n]), fs[n], Run(cap, s, fs), ids);
    }
  }

  /**
   * A caller's test for a whole run: with room for all ids ever seen and known actions, a run settles exactly if
   * its pages announce.
   */
  lemma {:induction false} RoomMeansSettledRun(cap: nat, s: State, fs: seq<Frame>, ids: set<Key>)
    requires s.view.Keys <= ids && |ids| * 4 <= cap * 3 && AllAbout(fs, ids)
    ensures SettledRun(cap, s, fs) <==> PagesAnnounce(fs)
  {
    if fs != [] {
      var n := |fs| - 1;
      LastFrame(fs, ids, n);
      RoomMeansSettledRun(cap, s, fs[..n], ids);
      KeysAfterRun(cap, s, fs[..n], ids);
      var before := Run(cap, s, fs[..n]);
      RoomMeansSettles(cap, before, fs[n], ids);
      assert SettledRun(cap, s, fs) <==> SettledRun(cap, s, fs[..n]) && Settles(cap, before, fs[n]);
    }
  }

  /** After every frame, replaying all notifications so far gives exactly the members, with their data. */
  predicate InStep(cap: nat, s: State, fs: seq<Frame>, ns: seq<seq<Msg>>)
    requires |ns| == |fs|
  {
    && Replay(Members(s.view), Flatten(ns)) == Members(Run(cap, s, fs).view)
    && (fs == [] || InStep(cap, s, fs[..|fs| - 1], ns[..|fs| - 1]))
  }

  lemma ToldStep(cap: nat, s: State, fs: seq<Frame>, ns: seq<seq<Msg>>, n: nat, notes: seq<Msg>)
    requires n < |fs| && Told(cap, s, fs[..n], ns) && Tells(cap, Run(cap, s, fs[..n]), fs[n], notes)
    ensures Told(cap, s, fs[..n + 1], ns + [notes])
    ensures Run(cap, s, fs[..n + 1]) == After(cap, Run(cap, s, fs[..n]), fs[n])
  {
    assert fs[..n + 1][..n] == fs[..n] && (ns + [notes])[..n] == ns;
  }

  lemma ReplayStep(cap: nat, s: State, fs: seq<Frame>, ns: seq<seq<Msg>>, n: nat)
    requires |ns| == |fs| == n + 1 && Tells(cap, Run(cap, s, fs[..n]), fs[n], ns[n])
    requires Replay(Members(s.view), Flatten(ns[..n])) == Members(Run(cap, s, fs[..n]).view)
    ensures Replay(Members(s.view), Flatten(ns)) == Members(Run(cap, s, fs).view) <==>
            Settles(cap, Run(cap, s, fs[..n]), fs[n])
  {
    ReplayAppend(Members(s.view), Flatten(ns[..n]), ns[n]);
    FrameReplaysExactly(cap, Run(cap, s, fs[..n]), fs[n], ns[n]);
  }

  /** A replica stays in step through a run exactly if every frame of it settles. */
  lemma {:induction false} RunReplaysExactly(cap: nat, s: State, fs: seq<Frame>, ns: seq<seq<Msg>>)
    requires Told(cap, s, fs, ns)
    ensures InStep(cap, s, fs, ns) <==> SettledRun(cap, s, fs)
    decreases |fs|
  {
    if fs == [] {
      assert Flatten(ns) == [];
    } else {
      var n := |fs| - 1;
      RunReplaysExactly(cap, s, fs[..n], ns[..n]);
      if InStep(cap, s, fs[..n], ns[..n]) {
        ReplayStep(cap, s, fs, ns, n);
      }
    }
  }

  /**
   * Exactly when one entry of a SYNC page replays: it announces a member and is accepted, or removes one
   * and is refused, or has no action a replica knows and changes nothing.
   */
  lemma SyncEntryReplaysExactly(cap: nat, v: View, m: Msg)
    ensures Members(ApplyOne(cap, v, Put(Normal(m)))) == ReplayOne(Members(v), m) <==>
            if IsUpsert(m.action) then Accepts(cap, v, m.clientId)
            else if IsRemoval(m.action) then !Accepts(cap, v, m.clientId)
            else !Accepts(cap, v, m.clientId) || (m.clientId in v && v[m.clientId].msg == Normal(m))
  {
    var id, w, r := m.clientId, Members(ApplyOne(cap, v, Put(Normal(m)))), ReplayOne(Members(v), m);
    if Accepts(cap, v, id) {
      assert id in w && w[id] == Normal(m);
      if IsUpsert(m.action) {
        assert w == r;
      } else if IsRemoval(m.action) {
        assert id !in r;
      } else if id in v && v[id].msg == Normal(m) {
        assert w == r;
      }
    } else {
      assert w == Members(v) && id !in w;
      if IsUpsert(m.action) {
        assert id in r;
      } else {
        assert w == r;
      }
    }
  }

  lemma OneEntryPage(cap: nat, v: View, r: map<Key, Msg>, m: Msg)
    requires Accepts(cap, v, m.clientId)
    ensures Apply(cap, v, PageEvents([m])) == v[m.clientId := Entry(Normal(m), false)]
    ensures Replay(r, [m]) == ReplayOne(r, m)
  {
    assert PageEvents([m]) == [Put(Normal(m))] + PageEvents([m][1..]);
  }

  /** The serial "s:1", which has a cursor. */
  const MORE: seq<byte> := [115, COLON, 49]

  lemma MorePages()
    ensures !IsLastPage(MORE)
  {
    assert MORE[1..] == [COLON, 49];
    assert ColonAt(MORE) == 1 + ColonAt(MORE[1..]);
  }

  /** So a SYNC page that carries a LEAVE for a member parts the set from what subscribers were told. */
  lemma LeaveInSyncPageDiverges(cap: nat, m: Msg)
    requires cap >= 4 && m.action == Leave
    ensures var s, f := State(map[], false), Sync([m], MORE);
            && Invariant(cap, s) && Tells(cap, s, f, [m])
            && Replay(Members(s.view), [m]) != Members(After(cap, s, f).view)
  {
    var s := State(map[], false);
    MorePages();
    assert Opened(s) == map[];
    OneEntryPage(cap, map[], map[], m);
    assert m.clientId !in Replay(Members(s.view), [m]);
  }

  lemma OneEnter(cap: nat, v: View, m: Msg)
    requires m.action == Enter
    ensures Known([m]) == [m] && EventsOf(Presence([m])) == [Put(Normal(m))]
    ensures Apply(cap, v, EventsOf(Presence([m]))) == ApplyOne(cap, v, Put(Normal(m)))
  {
    assert [m][1..] == [];
    assert Known([m]) == [m] + Known([]) && MessageEvents([m]) == [Put(Normal(m))] + MessageEvents([]);
    var es := [Put(Normal(m))];
    assert es[1..] == [] && Apply(cap, v, es) == Apply(cap, ApplyOne(cap, v, es[0]), []);
  }

  /** At the load cap the ENTER of somebody new is told to subscribers and not stored. */
  lemma RefusedEnterDiverges(cap: nat, s: State, m: Msg)
    requires H.AtLoadCap(|s.view|, cap) && m.clientId !in s.view && m.action == Enter
    ensures var f := Presence([m]);
            && Tells(cap, s, f, [m]) && !Settles(cap, s, f) && After(cap, s, f) == s
            && Replay(Members(s.view), [m]) != Members(s.view)
  {
    OneEnter(cap, s.view, m);
    assert RefusedBy(cap, s.view, [Put(Normal(m))]) == {m.clientId};
    FrameReplaysExactly(cap, s, Presence([m]), [m]);
  }

  lemma EnterIsStored(v: View, m: Msg)
    requires |v| < 3 && m.clientId !in v && m.action == Enter
    ensures After(4, State(v, false), Presence([m])) == State(v[m.clientId := Entry(Normal(m), false)], false)
    ensures |v[m.clientId := Entry(Normal(m), false)]| == |v| + 1
  {
    OneEnter(4, v, m);
    SizeAfterPut(v, m.clientId, Entry(Normal(m), false));
  }

  /** Such a state is reached: three members fill a pool of four slots. */
  lemma ThreeReachTheCap(a: Msg, b: Msg, c: Msg)
    requires a.action == b.action == c.action == Enter
    requires a.clientId != b.clientId && c.clientId !in {a.clientId, b.clientId}
    ensures var s1 := After(4, State(map[], false), Presence([a]));
            var s := After(4, After(4, s1, Presence([b])), Presence([c]));
            H.AtLoadCap(|s.view|, 4) && s.view.Keys == {a.clientId, b.clientId, c.clientId}
  {
    EnterIsStored(map[], a);
    var v1: View := map[a.clientId := Entry(Normal(a), false)];
    EnterIsStored(v1, b);
    EnterIsStored(v1[b.clientId := Entry(Normal(b), false)], c);
  }

  /**
   * A sync that is interrupted after its first page, and then a complete one that mentions somebody else only: the
   * member of the first is still there when the second has ended.
   */
  lemma InterruptedSyncDoesNotConverge(cap: nat, a: Msg, b: Msg)
    requires cap >= 4 && a.clientId != b.clientId
    ensures var s := After(cap, State(map[], false), Sync([a], MORE));
            var fs := [Sync([b], [])];
            && Invariant(cap, s) && s.syncing
            && CompleteSync(fs) && AllAccepted(cap, Opened(s), AllEvents(fs)) && a.clientId !in Touched(AllEvents(fs))
            && !Run(cap, s, fs).syncing && a.clientId in Run(cap, s, fs).view
            && Run(cap, s, fs).view != Fresh(Live(AllEvents(fs)))
  {
    var start, f := State(map[], false), Sync([b], []);
    MorePages();
    assert Opened(start) == map[];
    OneEntryPage(cap, map[], map[], a);
    AfterKeepsInvariant(cap, start, Sync([a], MORE));
    var s := After(cap, start, Sync([a], MORE));
    assert s == State(map[a.clientId := Entry(Normal(a), false)], true);
    assert [f][..0] == [] && AllEvents([f]) == [] + EventsOf(f);
    assert PageEvents([b]) == [Put(Normal(b))] + PageEvents([b][1..]);
    assert AllEvents([f]) == [Put(Normal(b))] && AllEvents([f])[1..] == [];
    assert AllAccepted(cap, ApplyOne(cap, s.view, Put(Normal(b))), []);
    CompleteSyncConverges(cap, s, [f]);
  }
}
