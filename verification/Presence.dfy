/** The presence set as the source keeps it: a pool of member records and a hash map into it. */
module Presence {
  import opened Bytes
  import opened P = ProbeTable
  import H = HashMap
  import opened M = PresenceModel

  datatype Member = Member(msg: Msg, inUse: bool, stale: bool)

  type Pool = seq<Member>
  type Index = map<Key, nat>

  // ---------------------------------------------------------------- agreement of pool and index

  /** The index maps an id to a slot exactly when that slot is in use with that id. */
  ghost predicate Agree(pool: Pool, index: Index)
  {
    && (forall id :: id in index ==> index[id] < |pool| && pool[index[id]].inUse && pool[index[id]].msg.clientId == id)
    && (forall i :: 0 <= i < |pool| && pool[i].inUse ==>
          pool[i].msg.clientId in index && index[pool[i].msg.clientId] == i)
  }

  function EntryOf(m: Member): Entry
  {
    Entry(m.msg, m.stale)
  }

  ghost function ViewOf(pool: Pool, index: Index): (v: View)
    requires Agree(pool, index)
    ensures v.Keys == index.Keys && |v| == |index|
  {
    var v := map id | id in index :: EntryOf(pool[index[id]]);
    assert v.Keys == index.Keys;
    v
  }

  /** Pool and index agree, show `view`, and the frames can have led there. */
  ghost predicate Shows(pool: Pool, index: Index, syncing: bool, view: View)
  {
    && Agree(pool, index)
    && view == ViewOf(pool, index)
    && Invariant(|pool|, State(view, syncing))
  }

  /** The same, its quantifiers hidden until `Unfold` brings them out. */
  ghost predicate Good(pool: Pool, index: Index, syncing: bool, view: View)
  {
    |pool| >= 4 && forall n: nat :: Look(Structure.Pool, n) ==> Shows(pool, index, syncing, view)
  }

  lemma Unfold(pool: Pool, index: Index, syncing: bool, view: View)
    requires Good(pool, index, syncing, view)
    ensures Shows(pool, index, syncing, view)
  {
    assert Look(Structure.Pool, 0);
  }

  lemma LookupIsGood(pool: Pool, index: Index, syncing: bool, view: View, id: Key)
    requires Good(pool, index, syncing, view)
    ensures id in index <==> id in view
    ensures id in index ==> index[id] < |pool| && pool[index[id]].inUse && pool[index[id]].msg.clientId == id
    ensures |index| == |view|
  {
    Unfold(pool, index, syncing, view);
  }

  /** A record written for an id: in the slot the index gives it, or in a free slot that the index now gives it. */
  lemma WriteAgrees(pool: Pool, index: Index, i: nat, m: Member)
    requires Agree(pool, index) && i < |pool| && m.inUse
    requires if m.msg.clientId in index then index[m.msg.clientId] == i else !pool[i].inUse
    ensures Agree(pool[i := m], index[m.msg.clientId := i])
  {
  }

  lemma WriteShows(pool: Pool, index: Index, i: nat, m: Member)
    requires Agree(pool, index) && i < |pool| && m.inUse
    requires if m.msg.clientId in index then index[m.msg.clientId] == i else !pool[i].inUse
    requires Agree(pool[i := m], index[m.msg.clientId := i])
    ensures ViewOf(pool[i := m], index[m.msg.clientId := i]) == ViewOf(pool, index)[m.msg.clientId := EntryOf(m)]
  {
    var pool', index' := pool[i := m], index[m.msg.clientId := i];
    var v, v' := ViewOf(pool, index), ViewOf(pool', index');
    forall id | id in index'
      ensures v'[id] == v[m.msg.clientId := EntryOf(m)][id]
    {
      if id != m.msg.clientId {
        assert index[id] != i;
        assert pool'[index'[id]] == pool[index[id]];
      }
    }
    assert v'.Keys == v[m.msg.clientId := EntryOf(m)].Keys;
  }

  lemma FreeAgrees(pool: Pool, index: Index, id: Key, m: Member)
    requires Agree(pool, index) && id in index && !m.inUse
    ensures Agree(pool[index[id] := m], index - {id})
    ensures ViewOf(pool[index[id] := m], index - {id}) == ViewOf(pool, index) - {id}
  {
    var pool', index' := pool[index[id] := m], index - {id};
    forall x | x in index'
      ensures pool'[index'[x]] == pool[index[x]]
    {
      assert index[x] != index[id];
    }
    forall i | 0 <= i < |pool'| && pool'[i].inUse
      ensures pool'[i].msg.clientId in index' && index'[pool'[i].msg.clientId] == i
    {
      assert pool'[i] == pool[i];
    }
  }

  /** A message for a member, or for a new one below the load cap, in its slot. */
  lemma {:induction false} UpsertIsGood(pool: Pool, index: Index, syncing: bool, view: View, i: nat, m: Msg)
    requires Good(pool, index, syncing, view) && i < |pool| && m.action == Present
    requires if m.clientId in index then index[m.clientId] == i
             else !pool[i].inUse && !H.AtLoadCap(|index|, |pool|)
    ensures Good(pool[i := Member(m, true, false)], index[m.clientId := i], syncing, ApplyOne(|pool|, view, Put(m)))
  {
    Unfold(pool, index, syncing, view);
    WriteAgrees(pool, index, i, Member(m, true, false));
    WriteShows(pool, index, i, Member(m, true, false));
    StepKeepsInvariant(|pool|, State(view, syncing), Put(m));
  }

  /** A refused insertion leaves a free slot written but the set as it was. */
  lemma RefusalIsGood(pool: Pool, index: Index, syncing: bool, view: View, i: nat, m: Msg)
    requires Good(pool, index, syncing, view) && i < |pool| && !pool[i].inUse
    requires m.clientId !in index && H.AtLoadCap(|index|, |pool|)
    ensures Good(pool[i := Member(m, false, false)], index, syncing, ApplyOne(|pool|, view, Put(m)))
  {
    Unfold(pool, index, syncing, view);
    var pool' := pool[i := Member(m, false, false)];
    assert forall id :: id in index ==> pool'[index[id]] == pool[index[id]];
    assert ViewOf(pool', index) == view;
  }

  lemma FreeIsGood(pool: Pool, index: Index, syncing: bool, view: View, i: nat)
    requires Good(pool, index, syncing, view) && i < |pool| && pool[i].inUse
    ensures var id := pool[i].msg.clientId;
            Good(pool[i := pool[i].(inUse := false)], index - {id}, syncing, view - {id})
  {
    Unfold(pool, index, syncing, view);
    var id := pool[i].msg.clientId;
    FreeAgrees(pool, index, id, pool[i].(inUse := false));
    StepKeepsInvariant(|pool|, State(view, syncing), Del(id));
  }

  function Ids(pool: Pool): set<Key>
  {
    set i | 0 <= i < |pool| :: pool[i].msg.clientId
  }

  lemma {:induction false} DistinctIds(pool: Pool)
    requires forall i, j :: 0 <= i < j < |pool| ==> pool[i].msg.clientId != pool[j].msg.clientId
    ensures |Ids(pool)| == |pool|
  {
    if pool == [] {
      assert Ids(pool) == {};
    } else {
      var init, id := pool[..|pool| - 1], pool[|pool| - 1].msg.clientId;
      DistinctIds(init);
      assert forall i :: 0 <= i < |init| ==> init[i] == pool[i];
      assert Ids(pool) == Ids(init) + {id};
      assert id !in Ids(init);
    }
  }

  /** A pool with every slot in use needs as many ids as slots; the load cap never lets it come to that. */
  lemma PoolNeverFull(pool: Pool, index: Index, syncing: bool, view: View)
    requires Good(pool, index, syncing, view)
    ensures exists i :: 0 <= i < |pool| && !pool[i].inUse
  {
    Unfold(pool, index, syncing, view);
    if forall i :: 0 <= i < |pool| ==> pool[i].inUse {
      forall i, j | 0 <= i < j < |pool|
        ensures pool[i].msg.clientId != pool[j].msg.clientId
      {
        assert index[pool[i].msg.clientId] == i;
      }
      DistinctIds(pool);
      SubsetSize(Ids(pool), index.Keys);
    }
  }

  lemma EmptyIsGood(pool: Pool)
    requires |pool| >= 4 && forall i :: 0 <= i < |pool| ==> !pool[i].inUse
    ensures Good(pool, map[], false, map[])
  {
  }

  // ---------------------------------------------------------------- the module's state

  class PresenceState {
    const index: H.HashMap<nat>
    const pool: array<Member>
    var syncing: bool
    /** The members that pool and index stand for. */
    ghost var view: View

    ghost predicate Valid()
      reads this, index, index.slots, pool
    {
      && index.Valid() && pool.Length == index.slots.Length && pool as object != index.slots
      && Good(pool[..], index.model, syncing, view)
    }

    ghost function St(): State
      reads this
    {
      State(view, syncing)
    }

    constructor (hash: Key -> nat, capacity: nat)
      requires capacity >= 4
      ensures Valid() && St() == State(map[], false) && pool.Length == capacity
      ensures fresh(index) && fresh(index.slots) && fresh(pool)
    {
      index := new H.HashMap<nat>(hash, capacity);
      pool := new Member[capacity](_ => Member(Msg(Absent, [], [], [], 0), false, false));
      syncing, view := false, map[];
      new;
      EmptyIsGood(pool[..]);
    }

    /** The first slot not in use, or the capacity. */
    method FreeSlot() returns (i: nat)
      ensures i <= pool.Length && (i < pool.Length ==> !pool[i].inUse)
      ensures forall j :: 0 <= j < i ==> pool[j].inUse
    {
      i := 0;
      while i < pool.Length
        invariant i <= pool.Length && forall j :: 0 <= j < i ==> pool[j].inUse
      {
        if !pool[i].inUse {
          return;
        }
        i := i + 1;
      }
    }

    /** Insert or overwrite; the pool is never full, the index may be at its load cap. */
    method Upsert(m: Msg)
      requires Valid() && m.action == Present
      modifies this`view, pool, index, index.slots
      ensures Valid() && view == ApplyOne(pool.Length, old(view), Put(m))
    {
      ghost var p, x, v := pool[..], index.model, view;
      LookupIsGood(p, x, syncing, v, m.clientId);
      var existing := index.Get(m.clientId);
      if existing.Some? {
        var i := existing.value;
        UpsertIsGood(p, x, syncing, v, i, m);
        assert x[m.clientId := i] == x;
        pool[i] := Member(m, true, false);
        assert pool[..] == p[i := Member(m, true, false)];
      } else {
        PoolNeverFull(p, x, syncing, v);
        var i := FreeSlot();
        pool[i] := Member(m, true, false);
        var rc := index.Put(m.clientId, i);
        if rc != 0 {
          RefusalIsGood(p, x, syncing, v, i, m);
          pool[i] := pool[i].(inUse := false);
          assert pool[..] == p[i := Member(m, false, false)];
        } else {
          UpsertIsGood(p, x, syncing, v, i, m);
          assert pool[..] == p[i := Member(m, true, false)];
        }
      }
      view := ApplyOne(pool.Length, view, Put(m));
    }

    method RemoveMember(id: Key)
      requires Valid()
      modifies this`view, pool, index, index.slots
      ensures Valid() && view == ApplyOne(pool.Length, old(view), Del(id))
    {
      LookupIsGood(pool[..], index.model, syncing, view, id);
      var existing := index.Get(id);
      if existing.Some? {
        Free(existing.value);
      } else {
        assert view - {id} == view;
      }
    }

    /** Takes a member out of pool and index. */
    method Free(i: nat)
      requires Valid() && i < pool.Length && pool[i].inUse
      modifies this`view, pool, index, index.slots
      ensures Valid() && view == old(view) - {old(pool[i].msg.clientId)}
      ensures pool[..] == old(pool[..])[i := old(pool[i]).(inUse := false)]
    {
      ghost var p, x, v := pool[..], index.model, view;
      var id := pool[i].msg.clientId;
      FreeIsGood(p, x, syncing, v, i);
      pool[i] := pool[i].(inUse := false);
      assert pool[..] == p[i := p[i].(inUse := false)];
      var rc := index.Remove(id);
      view := view - {id};
    }

    // ------------------------------------------------------------- sync

    /** Marks every member stale. */
    method BeginSync()
      requires Valid()
      modifies this`syncing, this`view, pool
      ensures Valid() && St() == State(Mark(old(view)), true)
    {
      ghost var p, x, v, s := pool[..], index.model, view, syncing;
      for i := 0 to pool.Length
        invariant index.Valid() && index.model == x && syncing == s && view == v
        invariant forall j :: 0 <= j < i ==> pool[j] == Marked(p[j])
        invariant forall j :: i <= j < pool.Length ==> pool[j] == p[j]
      {
        if pool[i].inUse && pool[i].msg.action == Present {
          pool[i] := pool[i].(stale := true);
        }
      }
      ghost var p' := pool[..];
      assert forall j :: 0 <= j < |p| ==> p'[j] == Marked(p[j]);
      MarkIsGood(p, p', x, s, v);
      syncing, view := true, Mark(view);
    }

    /** Sweeps one slot: a stale member is freed and leaves. */
    method SweepSlot(i: nat) returns (leave: seq<Msg>)
      requires Valid() && i < pool.Length
      modifies this`view, pool, index, index.slots
      ensures Valid() && pool[i + 1..] == old(pool[i + 1..])
      ensures var m := old(pool[i]);
              if m.inUse && m.stale then leave == [m.msg.(action := Leave)] && view == old(view) - {m.msg.clientId}
              else leave == [] && view == old(view)
    {
      leave := [];
      if pool[i].inUse && pool[i].stale {
        leave := [pool[i].msg.(action := Leave)];
        Free(i);
      }
    }

    /** Sweeps the members still stale and tells of each with a LEAVE. */
    method EndSync() returns (leaves: seq<Msg>)
      requires Valid()
      modifies this, pool, index, index.slots
      ensures Valid() && St() == State(Sweep(old(view)), false) && LeavesOf(old(view), leaves)
    {
      ghost var p, x, v, s := pool[..], index.model, view, syncing;
      leaves := [];
      SweepStarts(p, x, s, v);
      for i := 0 to pool.Length
        invariant Valid() && pool[i..] == p[i..]
        invariant SweptTo(p, x, s, v, i, view, leaves)
      {
        assert pool[i] == pool[i..][0] && p[i] == p[i..][0];
        assert pool[i..][1..] == pool[i + 1..] && p[i..][1..] == p[i + 1..];
        SweepStep(p, x, s, v, i, view, leaves);
        var leave := SweepSlot(i);
        assert leaves + [] == leaves;
        leaves := leaves + leave;
      }
      SweepDone(p, x, s, v, view, leaves);
      SweptIsGood(pool[..], index.model, syncing, view, v);
      syncing := false;
    }

    /** One message of a PRESENCE frame, `rest` being the messages after it. */
    method HandleOne(m: Msg, ghost rest: seq<Msg>) returns (note: seq<Msg>)
      requires Valid()
      modifies this`view, pool, index, index.slots
      ensures Valid()
      ensures Apply(pool.Length, view, MessageEvents(rest)) == Apply(pool.Length, old(view), MessageEvents([m] + rest))
      ensures note + Known(rest) == Known([m] + rest)
    {
      MessageStep(pool.Length, view, [m] + rest);
      assert ([m] + rest)[1..] == rest;
      if IsUpsert(m.action) {
        Upsert(Normal(m));
        return [m];
      } else if IsRemoval(m.action) {
        RemoveMember(m.clientId);
        return [m];
      }
      return [];
    }

    /** One frame of each kind changes the set, and tells subscribers, as the model says. */
    method HandleMessage(msgs: seq<Msg>) returns (notes: seq<Msg>)
      requires Valid()
      modifies this`view, pool, index, index.slots
      ensures Valid() && St() == After(pool.Length, old(St()), Presence(msgs))
      ensures Tells(pool.Length, old(St()), Presence(msgs), notes)
    {
      notes := [];
      ghost var v := view;
      assert msgs[0..] == msgs && [] + Known(msgs) == Known(msgs);
      for i := 0 to |msgs|
        invariant Valid()
        invariant Apply(pool.Length, view, MessageEvents(msgs[i..])) == Apply(pool.Length, v, MessageEvents(msgs))
        invariant notes + Known(msgs[i..]) == Known(msgs)
      {
        ghost var rest := msgs[i + 1..];
        assert msgs[i..] == [msgs[i]] + rest;
        var note := HandleOne(msgs[i], rest);
        Assoc(notes, note, Known(rest));
        notes := notes + note;
      }
      assert notes + [] == notes;
    }

    method HandleSync(msgs: seq<Msg>, serial: seq<byte>) returns (notes: seq<Msg>)
      requires Valid()
      modifies this, pool, index, index.slots
      ensures Valid() && St() == After(pool.Length, old(St()), Sync(msgs, serial))
      ensures Tells(pool.Length, old(St()), Sync(msgs, serial), notes)
    {
      if !syncing {
        BeginSync();
      }
      notes := [];
      ghost var v := view;
      assert msgs[0..] == msgs;
      for i := 0 to |msgs|
        invariant Valid() && syncing
        invariant Apply(pool.Length, view, PageEvents(msgs[i..])) == Apply(pool.Length, v, PageEvents(msgs))
        invariant notes == msgs[..i]
      {
        assert msgs[i..][1..] == msgs[i + 1..];
        PageStep(pool.Length, view, msgs[i..]);
        Upsert(Normal(msgs[i]));
        notes := notes + [msgs[i]];
      }
      assert notes == msgs;
      var colon := ColonAt(serial);
      if colon == |serial| || colon + 1 == |serial| {
        var leaves := EndSync();
        notes := notes + leaves;
        assert notes[|msgs|..] == leaves;
      }
    }

    method HandleFrame(f: Frame) returns (notes: seq<Msg>)
      requires Valid()
      modifies this, pool, index, index.slots
      ensures Valid() && St() == After(pool.Length, old(St()), f) && Tells(pool.Length, old(St()), f, notes)
    {
      match f {
        case Presence(msgs) => notes := HandleMessage(msgs);
        case Sync(msgs, serial) => notes := HandleSync(msgs, serial);
      }
    }

    /**
     * A run of frames, with the notifications of each. A subscriber who replays them holds exactly the members
     * after every frame just if every frame settles.
     */
    method HandleAll(fs: seq<Frame>) returns (ns: seq<seq<Msg>>)
      requires Valid()
      modifies this, pool, index, index.slots
      ensures Valid() && St() == M.Run(pool.Length, old(St()), fs)
      ensures Told(pool.Length, old(St()), fs, ns)
      ensures InStep(pool.Length, old(St()), fs, ns) <==> SettledRun(pool.Length, old(St()), fs)
    {
      ns := [];
      ghost var cap, s := pool.Length, St();
      for n := 0 to |fs|
        invariant Valid() && St() == M.Run(cap, s, fs[..n]) && Told(cap, s, fs[..n], ns)
      {
        var notes := HandleFrame(fs[n]);
        ToldStep(cap, s, fs, ns, n, notes);
        ns := ns + [notes];
      }
      assert fs[..|fs|] == fs;
      RunReplaysExactly(cap, s, fs, ns);
    }

    /** Up to `max` members in pool order, and how many there are. */
    method GetMembers(max: nat) returns (out: seq<Msg>, total: nat)
      requires Valid()
      ensures total == |view| && |out| == if total < max then total else max
      ensures forall k :: 0 <= k < |out| ==> out[k].clientId in view && out[k] == view[out[k].clientId].msg
      ensures forall j, k :: 0 <= j < k < |out| ==> out[j].clientId != out[k].clientId
    {
      out, total := [], 0;
      ghost var p, x := pool[..], index.model;
      for i := 0 to pool.Length
        invariant total == |InUse(p[..i])|
        invariant out == InUse(p[..i])[..if total < max then total else max]
      {
        assert p[..i + 1][..i] == p[..i];
        if pool[i].inUse {
          UsedArePresent(p, x, syncing, view, i);
        }
        if pool[i].inUse && pool[i].msg.action == Present {
          total := total + 1;
          if |out| < max {
            out := out + [pool[i].msg];
          }
        }
      }
      assert p[..pool.Length] == p;
      InUseListsView(p, x, syncing, view);
    }
  }

  // ---------------------------------------------------------------- steps of the loops

  function Marked(m: Member): Member
  {
    if m.inUse && m.msg.action == Present then m.(stale := true) else m
  }

  lemma MarkIsGood(p: Pool, p': Pool, index: Index, syncing: bool, v: View)
    requires Good(p, index, syncing, v) && |p'| == |p| && forall j :: 0 <= j < |p| ==> p'[j] == Marked(p[j])
    ensures Good(p', index, true, Mark(v))
  {
    Unfold(p, index, syncing, v);
    assert Agree(p', index);
    var v' := ViewOf(p', index);
    forall id | id in index
      ensures v'[id] == Entry(v[id].msg, true)
    {
      assert v[id] == EntryOf(p[index[id]]);
    }
    assert v' == Mark(v);
    SizeOfSubset(v, v');
  }

  /** Slots below `i` have been swept: what is left of the view, and the leaves so far. */
  ghost predicate Swept(index: Index, v: View, i: nat, view: View, leaves: seq<Msg>)
    requires v.Keys == index.Keys
  {
    && (forall id :: id in view <==> id in v && !(v[id].stale && index[id] < i))
    && (forall id :: id in view ==> view[id] == v[id])
    && (forall k :: 0 <= k < |leaves| ==>
          var id := leaves[k].clientId;
          id in v && v[id].stale && index[id] < i && leaves[k] == v[id].msg.(action := Leave))
    && (forall j, k :: 0 <= j < k < |leaves| ==> leaves[j].clientId != leaves[k].clientId)
    && (forall id :: id in v && v[id].stale && index[id] < i ==>
          exists k :: 0 <= k < |leaves| && leaves[k].clientId == id)
  }

  ghost predicate SweptTo(p: Pool, index: Index, syncing: bool, v: View, i: nat, view: View, leaves: seq<Msg>)
  {
    && Good(p, index, syncing, v)
    && forall n: nat :: Look(Structure.Pool, n) ==> v.Keys == index.Keys && Swept(index, v, i, view, leaves)
  }

  lemma SweepStarts(p: Pool, index: Index, syncing: bool, v: View)
    requires Good(p, index, syncing, v)
    ensures SweptTo(p, index, syncing, v, 0, v, [])
  {
  }

  /** Whatever slot `i` holds, sweeping it takes the loop one slot further. */
  lemma SweepStep(p: Pool, index: Index, syncing: bool, v: View, i: nat, view: View, leaves: seq<Msg>)
    requires i < |p| && SweptTo(p, index, syncing, v, i, view, leaves)
    ensures var m := p[i];
            if m.inUse && m.stale then
              SweptTo(p, index, syncing, v, i + 1, view - {m.msg.clientId}, leaves + [m.msg.(action := Leave)])
            else SweptTo(p, index, syncing, v, i + 1, view, leaves)
  {
    Unfold(p, index, syncing, v);
    assert Look(Structure.Pool, 0);
    var m := p[i];
    var id := m.msg.clientId;
    if m.inUse {
      assert id in index && index[id] == i && v[id] == EntryOf(m);
    }
    forall x | x in v && (x != id || !m.inUse)
      ensures index[x] < i + 1 <==> index[x] < i
    {
      assert p[index[x]].msg.clientId == x && p[index[x]].inUse;
    }
    if m.inUse && m.stale {
      SweepOne(index, v, i, view, leaves, id);
    }
  }

  lemma SweepOne(index: Index, v: View, i: nat, view: View, leaves: seq<Msg>, id: Key)
    requires v.Keys == index.Keys && Swept(index, v, i, view, leaves)
    requires id in v && index[id] == i && v[id].stale && v[id].msg.clientId == id
    requires forall x :: x in v && x != id ==> (index[x] < i + 1 <==> index[x] < i)
    ensures Swept(index, v, i + 1, view - {id}, leaves + [v[id].msg.(action := Leave)])
  {
    var longer := leaves + [v[id].msg.(action := Leave)];
    forall x | x in v && v[x].stale && index[x] < i + 1
      ensures exists k :: 0 <= k < |longer| && longer[k].clientId == x
    {
      if x == id {
        assert longer[|leaves|].clientId == x;
      } else {
        var k :| 0 <= k < |leaves| && leaves[k].clientId == x;
        assert longer[k].clientId == x;
      }
    }
  }

  lemma SweepDone(p: Pool, index: Index, syncing: bool, v: View, view: View, leaves: seq<Msg>)
    requires SweptTo(p, index, syncing, v, |p|, view, leaves)
    ensures view == Sweep(v) && LeavesOf(v, leaves)
  {
    Unfold(p, index, syncing, v);
    assert Look(Structure.Pool, 0);
    assert forall id :: id in v ==> index[id] < |p|;
  }

  lemma SweptIsGood(p: Pool, index: Index, syncing: bool, view: View, v: View)
    requires Good(p, index, syncing, view) && view == Sweep(v)
    ensures Good(p, index, false, view)
  {
  }

  lemma MessageStep(cap: nat, v: View, msgs: seq<Msg>)
    requires msgs != []
    ensures var m := msgs[0];
            && (IsUpsert(m.action) ==>
                  Apply(cap, v, MessageEvents(msgs)) ==
                  Apply(cap, ApplyOne(cap, v, Put(Normal(m))), MessageEvents(msgs[1..])))
            && (IsRemoval(m.action) ==>
                  Apply(cap, v, MessageEvents(msgs)) ==
                  Apply(cap, ApplyOne(cap, v, Del(m.clientId)), MessageEvents(msgs[1..])))
            && (!IsUpsert(m.action) && !IsRemoval(m.action) ==>
                  Apply(cap, v, MessageEvents(msgs)) == Apply(cap, v, MessageEvents(msgs[1..])))
  {
    var es, more := MessageEvents(msgs), MessageEvents(msgs[1..]);
    if IsUpsert(msgs[0].action) || IsRemoval(msgs[0].action) {
      assert es[1..] == more;
    } else {
      assert es == more;
    }
  }

  lemma PageStep(cap: nat, v: View, msgs: seq<Msg>)
    requires msgs != []
    ensures Apply(cap, v, PageEvents(msgs)) == Apply(cap, ApplyOne(cap, v, Put(Normal(msgs[0]))), PageEvents(msgs[1..]))
  {
  }

  /** The messages of the slots in use, in pool order. */
  function InUse(p: Pool): seq<Msg>
  {
    if p == [] then []
    else InUse(p[..|p| - 1]) + if p[|p| - 1].inUse then [p[|p| - 1].msg] else []
  }

  lemma UsedArePresent(p: Pool, index: Index, syncing: bool, view: View, i: nat)
    requires Good(p, index, syncing, view) && i < |p| && p[i].inUse
    ensures p[i].msg.action == Present
  {
    Unfold(p, index, syncing, view);
    assert view[p[i].msg.clientId] == EntryOf(p[i]);
  }

  lemma {:induction false} InUseOnce(p: Pool, index: Index, n: nat)
    requires Agree(p, index) && n <= |p|
    ensures forall k :: 0 <= k < |InUse(p[..n])| ==>
              var m := InUse(p[..n])[k]; m.clientId in index && index[m.clientId] < n && m == p[index[m.clientId]].msg
    ensures forall j, k :: 0 <= j < k < |InUse(p[..n])| ==> InUse(p[..n])[j].clientId != InUse(p[..n])[k].clientId
    ensures forall id :: id in index && index[id] < n ==> p[index[id]].msg in InUse(p[..n])
  {
    if n > 0 {
      InUseOnce(p, index, n - 1);
      assert p[..n][..n - 1] == p[..n - 1];
    }
  }

  function AsPool(msgs: seq<Msg>): (p: Pool)
    ensures |p| == |msgs| && forall k :: 0 <= k < |p| ==> p[k].msg == msgs[k]
  {
    seq(|msgs|, k requires 0 <= k < |msgs| => Member(msgs[k], true, false))
  }

  lemma InUseListsView(p: Pool, index: Index, syncing: bool, v: View)
    requires Good(p, index, syncing, v)
    ensures var s := InUse(p);
            && |s| == |v|
            && (forall k :: 0 <= k < |s| ==> s[k].clientId in v && s[k] == v[s[k].clientId].msg)
            && (forall j, k :: 0 <= j < k < |s| ==> s[j].clientId != s[k].clientId)
  {
    Unfold(p, index, syncing, v);
    InUseOnce(p, index, |p|);
    assert p[..|p|] == p;
    OncePerId(InUse(p), p, index);
  }

  /** Messages listed once per id are as many as the ids. */
  lemma OncePerId(s: seq<Msg>, p: Pool, index: Index)
    requires forall id :: id in index ==> index[id] < |p| && p[index[id]].msg.clientId == id && p[index[id]].msg in s
    requires forall k :: 0 <= k < |s| ==> s[k].clientId in index
    requires forall j, k :: 0 <= j < k < |s| ==> s[j].clientId != s[k].clientId
    ensures |s| == |index|
  {
    var q := AsPool(s);
    DistinctIds(q);
    forall id | id in index
      ensures id in Ids(q)
    {
      var k :| 0 <= k < |s| && s[k] == p[index[id]].msg;
      assert q[k].msg.clientId == id;
    }
    assert Ids(q) == index.Keys;
  }
}
