/** The fixed-capacity hash map over a caller-supplied slot array. */
module HashMap {
  import opened Bytes
  import opened P = ProbeTable

  /** The 75% load cap, which comes before the key is looked for. */
  predicate AtLoadCap(count: nat, capacity: nat)
  {
    count * 4 >= capacity * 3
  }

  class HashMap<V(0)> {
    const hash: Key -> nat
    const slots: array<Slot<V>>
    var count: nat
    ghost var model: map<Key, V>

    /** A client's proofs see only `Valid()` and the abstract map; `Unfold` brings out the rest. */
    ghost predicate Valid()
      reads this, slots
    {
      slots.Length >= 4 && forall n: nat :: Look(Table, n) ==> Refines()
    }

    ghost predicate Refines()
      reads this, slots
    {
      Sound(slots[..], hash) && model == MapOf(slots[..]) && count == Live(slots[..])
    }

    lemma Unfold()
      requires Valid()
      ensures Sound(slots[..], hash) && model == MapOf(slots[..]) && count == Live(slots[..]) == |model|
    {
      assert Look(Table, 0);
      LiveIsSize(slots[..], model);
    }

    lemma UnfoldSound()
      requires Valid()
      ensures Sound(slots[..], hash)
    {
      assert Look(Table, 0);
    }

    lemma Found(at: nat, key: Key)
      requires Valid() && Holds(slots[..], at, key)
      ensures key in model && model[key] == slots[at].value
    {
      Unfold();
      FoundInMap(slots[..], at, key);
    }

    lemma NotFound(key: Key)
      requires Valid() && forall i :: 0 <= i < slots.Length ==> !Holds(slots[..], i, key)
      ensures key !in model && model - {key} == model
    {
      Unfold();
      AbsentFromMap(slots[..], key);
    }

    constructor (hash: Key -> nat, capacity: nat)
      requires capacity >= 4
      ensures Valid() && model == map[] && slots.Length == capacity && this.hash == hash && fresh(slots)
    {
      this.hash, count, model := hash, 0, map[];
      slots := new Slot<V>[capacity](_ => Empty);
      new;
      EmptyIsSound(slots[..], hash);
    }

    /**
     * Insert or overwrite. At the load cap the call is refused even for a key that is present; below it
     * the call cannot fail, whatever tombstones there are.
     */
    method Put(key: Key, value: V) returns (rc: int)
      requires Valid()
      modifies this, slots
      ensures Valid()
      ensures rc == if AtLoadCap(|old(model)|, slots.Length) then -1 else 0
      ensures model == if rc == 0 then old(model)[key := value] else old(model)
      ensures rc != 0 ==> slots[..] == old(slots[..])
    {
      Unfold();
      if count * 4 >= slots.Length * 3 {
        return -1;
      }
      var found, at;
      ghost var d;
      found, at, d := Seek(key);
      if found {
        Overwrite(at, key, value);
        return 0;
      }
      if at == slots.Length {
        // every slot is live, against the load cap
        LiveAll(slots[..]);
        assert false;
      }
      Insert(at, key, value, d);
      return 0;
    }

    /**
     * The probe loop of an insertion: the slot of the key, else the first tombstone passed, else the
     * empty slot that ended the search, else the capacity when there is neither.
     */
    method Seek(key: Key) returns (found: bool, at: nat, ghost d: nat)
      requires Valid()
      ensures found ==> at < slots.Length && Holds(slots[..], at, key)
      ensures !found ==> forall i :: 0 <= i < slots.Length ==> !Holds(slots[..], i, key)
      ensures !found && at != slots.Length ==>
                && d < slots.Length && at == Pos(Home(hash, key, slots.Length), d, slots.Length)
                && Passed(slots[..], Home(hash, key, slots.Length), key, d) && !slots[at].Occupied?
                && forall e :: 0 <= e < d ==> slots[Pos(Home(hash, key, slots.Length), e, slots.Length)].Occupied?
      ensures !found && at == slots.Length ==> forall i :: 0 <= i < slots.Length ==> slots[i].Occupied?
    {
      UnfoldSound();
      var n: nat := slots.Length;
      var i := Home(hash, key, n);
      var tombstone: nat := n;
      ghost var t, home := slots[..], i;
      ghost var stone: nat := n;
      for probe := 0 to n
        invariant probe < n ==> i == Pos(home, probe, n)
        invariant Probed(t, home, key, probe, stone)
        invariant tombstone == if stone == n then n else Pos(home, stone, n)
      {
        var slot := slots[i];
        ghost var distance := stone;
        if slot.Occupied? {
          if slot.key == key {
            return true, i, probe;
          }
        } else if slot.Deleted? {
          if tombstone == n {
            tombstone, stone := i, probe;
          }
        } else {
          SearchIsConclusive(t, hash, key, probe);
          if tombstone != n {
            return false, tombstone, stone;
          }
          return false, i, probe;
        }
        PassOne(t, home, key, probe);
        ProbeOne(t, home, key, probe, distance);
        i := Next(i, n);
      }
      SearchIsConclusive(t, hash, key, n);
      if tombstone == n {
        AllLive(t, home);
      }
      return false, tombstone, stone;
    }

    method Overwrite(at: nat, key: Key, value: V)
      requires Valid() && at < slots.Length && Holds(slots[..], at, key)
      modifies this`model, slots
      ensures Valid() && model == old(model)[key := value]
    {
      Unfold();
      ghost var t := slots[..];
      OverwriteIsSound(t, hash, key, value, at);
      slots[at] := Occupied(key, value);
      model := model[key := value];
      assert slots[..] == t[at := Occupied(key, value)];
    }

    /** Fills a free slot on the probe sequence of an absent key. */
    method Insert(at: nat, key: Key, value: V, ghost d: nat)
      requires Valid() && d < slots.Length && at == Pos(Home(hash, key, slots.Length), d, slots.Length)
      requires Passed(slots[..], Home(hash, key, slots.Length), key, d) && !slots[at].Occupied?
      requires forall i :: 0 <= i < slots.Length ==> !Holds(slots[..], i, key)
      modifies this, slots
      ensures Valid() && model == old(model)[key := value]
    {
      Unfold();
      InsertIsSound(slots[..], hash, key, value, d);
      ghost var t := slots[..];
      slots[at] := Occupied(key, value);
      count := count + 1;
      model := model[key := value];
      assert slots[..] == t[at := Occupied(key, value)];
    }

    method Get(key: Key) returns (r: Option<V>)
      requires Valid()
      ensures r == if key in model then Some(model[key]) else None
    {
      UnfoldSound();
      var n: nat := slots.Length;
      var i := Home(hash, key, n);
      ghost var t, home := slots[..], i;
      for probe := 0 to n
        invariant probe < n ==> i == Pos(home, probe, n)
        invariant Passed(t, home, key, probe)
      {
        var slot := slots[i];
        if slot.Occupied? && slot.key == key {
          Found(i, key);
          return Some(slot.value);
        }
        if slot.Empty? {
          SearchIsConclusive(t, hash, key, probe);
          NotFound(key);
          return None;
        }
        PassOne(t, home, key, probe);
        i := Next(i, n);
      }
      SearchIsConclusive(t, hash, key, n);
      NotFound(key);
      return None;
    }

    method Remove(key: Key) returns (rc: int)
      requires Valid()
      modifies this, slots
      ensures Valid() && model == old(model) - {key}
      ensures rc == if key in old(model) then 1 else 0
    {
      UnfoldSound();
      var n: nat := slots.Length;
      var i := Home(hash, key, n);
      ghost var t, home := slots[..], i;
      for probe := 0 to n
        invariant slots[..] == t && count == old(count) && model == old(model)
        invariant probe < n ==> i == Pos(home, probe, n)
        invariant Passed(t, home, key, probe)
      {
        var slot := slots[i];
        if slot.Occupied? && slot.key == key {
          Found(i, key);
          Erase(i, key);
          return 1;
        }
        if slot.Empty? {
          SearchIsConclusive(t, hash, key, probe);
          NotFound(key);
          return 0;
        }
        PassOne(t, home, key, probe);
        i := Next(i, n);
      }
      SearchIsConclusive(t, hash, key, n);
      NotFound(key);
      return 0;
    }

    /** Leaves a tombstone in place of a live key. */
    method Erase(at: nat, key: Key)
      requires Valid() && Holds(slots[..], at, key)
      modifies this, slots
      ensures Valid() && model == old(model) - {key}
    {
      Unfold();
      ghost var t := slots[..];
      RemoveIsSound(t, hash, key, at);
      slots[at] := Deleted;
      count := count - 1;
      model := model - {key};
      assert slots[..] == t[at := Deleted];
    }

    method Clear()
      requires Valid()
      modifies this, slots
      ensures Valid() && model == map[]
    {
      forall i | 0 <= i < slots.Length {
        slots[i] := Empty;
      }
      count, model := 0, map[];
      EmptyIsSound(slots[..], hash);
    }

    /** The next live entry at or after `index`, if any. */
    method IterNext(index: nat) returns (entry: Option<(Key, V)>, next: nat)
      requires Valid() && index <= slots.Length
      ensures entry.Some? ==> index < next <= slots.Length
      ensures entry.Some? ==> slots[next - 1] == Occupied(entry.value.0, entry.value.1)
      ensures forall i :: index <= i < (if entry.Some? then next - 1 else slots.Length) ==> !slots[i].Occupied?
    {
      next := index;
      while next < slots.Length
        invariant index <= next <= slots.Length
        invariant forall i :: index <= i < next ==> !slots[i].Occupied?
      {
        var slot := slots[next];
        next := next + 1;
        if slot.Occupied? {
          return Some((slot.key, slot.value)), next;
        }
      }
      entry := None;
    }

    /** A complete iteration yields every entry of the map once and nothing else. */
    method Iterate() returns (entries: seq<(Key, V)>)
      requires Valid()
      ensures |entries| == |model|
      ensures forall e :: e in entries <==> e.0 in model && model[e.0] == e.1
      ensures forall i, j :: 0 <= i < j < |entries| ==> entries[i].0 != entries[j].0
    {
      entries := [];
      var index: nat := 0;
      ghost var t := slots[..];
      while true
        invariant index <= slots.Length && entries == Entries(t[..index])
        decreases slots.Length - index
      {
        var entry, next := IterNext(index);
        if entry.None? {
          EntriesAfterGap(t, index, slots.Length);
          assert t[..slots.Length] == t;
          break;
        }
        EntriesAfterGap(t, index, next - 1);
        assert t[..next][..next - 1] == t[..next - 1];
        entries := entries + [entry.value];
        index := next;
      }
      Unfold();
      EntriesListMap(t, model);
    }

    /** One operation answers, and changes the map, as the specification says. */
    method Execute(op: Op<V>) returns (reply: Reply<V>)
      requires Valid()
      modifies this, slots
      ensures Valid() && (reply, model) == Apply(old(model), slots.Length, op)
    {
      match op {
        case OpPut(k, v) =>
          var rc := Put(k, v);
          reply := Code(rc);
        case OpGet(k) =>
          var r := Get(k);
          reply := Got(r);
        case OpRemove(k) =>
          var rc := Remove(k);
          reply := Code(rc);
        case OpClear =>
          Clear();
          reply := Done;
      }
    }
  }

  // ---------------------------------------------------------------- whole runs

  datatype Op<V> = OpPut(key: Key, value: V) | OpGet(key: Key) | OpRemove(key: Key) | OpClear

  datatype Reply<V> = Code(rc: int) | Got(value: Option<V>) | Done

  /** The specification: a finite map whose insertions are refused at the cap. */
  function Apply<V>(m: map<Key, V>, capacity: nat, op: Op<V>): (Reply<V>, map<Key, V>)
  {
    match op
    case OpPut(k, v) => if AtLoadCap(|m|, capacity) then (Code(-1), m) else (Code(0), m[k := v])
    case OpGet(k) => (Got(if k in m then Some(m[k]) else None), m)
    case OpRemove(k) => (Code(if k in m then 1 else 0), m - {k})
    case OpClear => (Done, map[])
  }

  function Replies<V>(m: map<Key, V>, capacity: nat, ops: seq<Op<V>>): seq<Reply<V>>
    decreases |ops|
  {
    if ops == [] then []
    else
      var (r, m') := Apply(m, capacity, ops[0]);
      [r] + Replies(m', capacity, ops[1..])
  }

  /** For every hash function and every run of operations the table answers as the finite map does. */
  method Replay<V(0)>(hash: Key -> nat, capacity: nat, ops: seq<Op<V>>) returns (replies: seq<Reply<V>>)
    requires capacity >= 4
    ensures replies == Replies(map[], capacity, ops)
  {
    var h := new HashMap<V>(hash, capacity);
    replies := [];
    assert ops[0..] == ops && [] + Replies(map[], capacity, ops) == Replies(map[], capacity, ops);
    for i := 0 to |ops|
      invariant h.Valid() && fresh(h) && fresh(h.slots) && h.slots.Length == capacity
      invariant replies + Replies(h.model, capacity, ops[i..]) == Replies(map[], capacity, ops)
    {
      ghost var m := h.model;
      assert ops[i..][1..] == ops[i + 1..];
      var reply := h.Execute(ops[i]);
      ghost var rest := Replies(h.model, capacity, ops[i + 1..]);
      assert replies + ([reply] + rest) == replies + [reply] + rest;
      replies := replies + [reply];
    }
    assert replies + [] == replies;
  }
}
