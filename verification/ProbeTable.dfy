/** Open addressing with linear probing and tombstones: the table as a sequence of slots. */
module ProbeTable {
  import opened Bytes

  /** A key fits the 256-byte field of a slot, NUL included, so that comparing 255 bytes compares keys. */
  const KEY_MAX := 256
  type Key = k: seq<byte> | |k| < KEY_MAX && 0 !in k

  datatype Slot<+V> = Empty | Occupied(key: Key, value: V) | Deleted

  // ---------------------------------------------------------------- probing

  /** The slot at probe distance `d` from `home`, wrapping once. */
  function Pos(home: nat, d: nat, n: nat): (i: nat)
    requires home < n && d < n
    ensures i < n
  {
    if home + d < n then home + d else home + d - n
  }

  /** The probe distance from `home` to slot `i`. */
  function Dist(home: nat, i: nat, n: nat): (d: nat)
    requires home < n && i < n
    ensures d < n && Pos(home, d, n) == i
    ensures forall e :: 0 <= e < n && Pos(home, e, n) == i ==> e == d
  {
    if home <= i then i - home else i + n - home
  }

  function Home(hash: Key -> nat, k: Key, n: nat): (h: nat)
    requires n > 0
    ensures h < n
  {
    hash(k) % n
  }

  predicate Holds<V>(t: seq<Slot<V>>, i: int, k: Key)
  {
    0 <= i < |t| && t[i].Occupied? && t[i].key == k
  }

  /** Every live key is reached from its home slot without meeting an empty slot. */
  ghost predicate Chained<V>(t: seq<Slot<V>>, hash: Key -> nat)
  {
    forall i, d :: 0 <= i < |t| && t[i].Occupied? && 0 <= d < Dist(Home(hash, t[i].key, |t|), i, |t|) ==>
      !t[Pos(Home(hash, t[i].key, |t|), d, |t|)].Empty?
  }

  ghost predicate Distinct<V>(t: seq<Slot<V>>)
  {
    forall i, j :: 0 <= i < |t| && 0 <= j < |t| && t[i].Occupied? && t[j].Occupied? && t[i].key == t[j].key ==> i == j
  }

  /** The first `d` probes for `k` meet neither an empty slot nor `k`. */
  ghost predicate Passed<V>(t: seq<Slot<V>>, home: nat, k: Key, d: nat)
    requires home < |t| && d <= |t|
  {
    forall e :: 0 <= e < d ==> !t[Pos(home, e, |t|)].Empty? && !Holds(t, Pos(home, e, |t|), k)
  }

  lemma PassOne<V>(t: seq<Slot<V>>, home: nat, k: Key, d: nat)
    requires home < |t| && d < |t| && Passed(t, home, k, d)
    requires !t[Pos(home, d, |t|)].Empty? && !Holds(t, Pos(home, d, |t|), k)
    ensures Passed(t, home, k, d + 1)
    ensures d + 1 < |t| ==> Next(Pos(home, d, |t|), |t|) == Pos(home, d + 1, |t|)
  {
  }

  /** An insertion's search: `stone` is the distance of the first tombstone passed, or the length if there was none. */
  ghost predicate Probed<V>(t: seq<Slot<V>>, home: nat, k: Key, d: nat, stone: nat)
    requires home < |t| && d <= |t|
  {
    && Passed(t, home, k, d)
    && (forall e :: 0 <= e < d && e < stone ==> t[Pos(home, e, |t|)].Occupied?)
    && (stone == |t| || (stone < d && t[Pos(home, stone, |t|)].Deleted?))
  }

  lemma ProbeOne<V>(t: seq<Slot<V>>, home: nat, k: Key, d: nat, stone: nat)
    requires home < |t| && d < |t| && Probed(t, home, k, d, stone)
    requires !t[Pos(home, d, |t|)].Empty? && !Holds(t, Pos(home, d, |t|), k)
    ensures Probed(t, home, k, d + 1, if stone == |t| && t[Pos(home, d, |t|)].Deleted? then d else stone)
  {
  }

  /** A search that stops on an empty slot, or has been everywhere, has shown the key to be absent. */
  lemma SearchIsConclusive<V>(t: seq<Slot<V>>, hash: Key -> nat, k: Key, d: nat)
    requires t != [] && Chained(t, hash) && d <= |t|
    requires Passed(t, Home(hash, k, |t|), k, d)
    requires d == |t| || t[Pos(Home(hash, k, |t|), d, |t|)].Empty?
    ensures forall i :: 0 <= i < |t| ==> !Holds(t, i, k)
  {
  }

  // ---------------------------------------------------------------- the map that a table stands for

  /** `m` has exactly the live entries of `t`. */
  ghost predicate Represents<V>(t: seq<Slot<V>>, m: map<Key, V>)
  {
    && (forall i :: 0 <= i < |t| && t[i].Occupied? ==> t[i].key in m && m[t[i].key] == t[i].value)
    && (forall k :: k in m ==> exists i :: Holds(t, i, k))
  }

  lemma RepresentsOne<V>(t: seq<Slot<V>>, m: map<Key, V>, m': map<Key, V>)
    requires Represents(t, m) && Represents(t, m')
    ensures m == m'
  {
  }

  ghost function MapOf<V>(t: seq<Slot<V>>): (m: map<Key, V>)
    requires Distinct(t)
    ensures Represents(t, m)
  {
    var m := map i | 0 <= i < |t| && t[i].Occupied? :: t[i].key := t[i].value;
    assert forall k :: k in m ==> exists i :: 0 <= i < |t| && t[i].Occupied? && t[i].key == k && Holds(t, i, k);
    m
  }

  lemma FoundInMap<V>(t: seq<Slot<V>>, p: nat, k: Key)
    requires Distinct(t) && Holds(t, p, k)
    ensures k in MapOf(t) && MapOf(t)[k] == t[p].value
  {
  }

  lemma AbsentFromMap<V>(t: seq<Slot<V>>, k: Key)
    requires Distinct(t) && forall i :: 0 <= i < |t| ==> !Holds(t, i, k)
    ensures k !in MapOf(t)
  {
  }

  function Live<V>(t: seq<Slot<V>>): (n: nat)
    ensures n <= |t|
  {
    if t == [] then 0 else Live(t[..|t| - 1]) + if t[|t| - 1].Occupied? then 1 else 0
  }

  lemma SizeWithout<V>(m: map<Key, V>, k: Key)
    requires k in m
    ensures |m - {k}| == |m| - 1
  {
  }

  /** The counter of live slots is the size of the map. */
  lemma {:induction false} LiveIsSize<V>(t: seq<Slot<V>>, m: map<Key, V>)
    requires Distinct(t) && Represents(t, m)
    ensures |m| == Live(t)
  {
    if t == [] {
      RepresentsOne(t, m, map[]);
    } else {
      var s, last := t[..|t| - 1], t[|t| - 1];
      assert forall i :: 0 <= i < |s| ==> s[i] == t[i];
      if last.Occupied? {
        Shrinks(t, m, m - {last.key});
        SizeWithout(m, last.key);
        LiveIsSize(s, m - {last.key});
      } else {
        Shrinks(t, m, m);
        LiveIsSize(s, m);
      }
    }
  }

  lemma Shrinks<V>(t: seq<Slot<V>>, m: map<Key, V>, m': map<Key, V>)
    requires t != [] && Distinct(t) && Represents(t, m)
    requires m' == if t[|t| - 1].Occupied? then m - {t[|t| - 1].key} else m
    ensures Represents(t[..|t| - 1], m')
  {
    var s := t[..|t| - 1];
    forall k | k in m'
      ensures exists i :: Holds(s, i, k)
    {
      var i :| Holds(t, i, k);
      assert Holds(s, i, k);
    }
  }

  /** The live entries in slot order, as an iterator meets them. */
  function Entries<V>(t: seq<Slot<V>>): seq<(Key, V)>
  {
    if t == [] then []
    else
      var last := t[|t| - 1];
      Entries(t[..|t| - 1]) + if last.Occupied? then [(last.key, last.value)] else []
  }

  lemma {:induction false} EntriesAfterGap<V>(t: seq<Slot<V>>, lo: nat, hi: nat)
    requires lo <= hi <= |t| && forall i :: lo <= i < hi ==> !t[i].Occupied?
    ensures Entries(t[..hi]) == Entries(t[..lo])
    decreases hi
  {
    if lo < hi {
      EntriesAfterGap(t, lo, hi - 1);
      assert t[..hi][..hi - 1] == t[..hi - 1];
    }
  }

  lemma {:induction false} EntriesAreLive<V>(t: seq<Slot<V>>)
    ensures |Entries(t)| == Live(t)
    ensures forall i :: 0 <= i < |Entries(t)| ==> Occupied(Entries(t)[i].0, Entries(t)[i].1) in t
    ensures forall n :: 0 <= n < |t| && t[n].Occupied? ==> (t[n].key, t[n].value) in Entries(t)
  {
    if t != [] {
      var s, last := t[..|t| - 1], t[|t| - 1];
      EntriesAreLive(s);
      assert t == s + [last];
    }
  }

  lemma {:induction false} EntriesAreDistinct<V>(t: seq<Slot<V>>)
    requires Distinct(t)
    ensures forall i, j :: 0 <= i < j < |Entries(t)| ==> Entries(t)[i].0 != Entries(t)[j].0
  {
    if t != [] {
      var s, last := t[..|t| - 1], t[|t| - 1];
      EntriesAreDistinct(s);
      EntriesAreLive(s);
      if last.Occupied? {
        forall i | 0 <= i < |Entries(s)|
          ensures Entries(s)[i].0 != last.key
        {
          var e := Entries(s)[i];
          var n :| 0 <= n < |s| && s[n] == Occupied(e.0, e.1);
          assert t[n] == s[n];
        }
      }
    }
  }

  /** Iteration order lists the map: every entry once, nothing else. */
  lemma EntriesListMap<V>(t: seq<Slot<V>>, m: map<Key, V>)
    requires Distinct(t) && Represents(t, m)
    ensures |Entries(t)| == |m|
    ensures forall e :: e in Entries(t) <==> e.0 in m && m[e.0] == e.1
    ensures forall i, j :: 0 <= i < j < |Entries(t)| ==> Entries(t)[i].0 != Entries(t)[j].0
  {
    EntriesAreLive(t);
    EntriesAreDistinct(t);
    LiveIsSize(t, m);
    forall e: (Key, V)
      ensures e in Entries(t) <==> e.0 in m && m[e.0] == e.1
    {
      if e.0 in m && m[e.0] == e.1 {
        var i :| Holds(t, i, e.0);
        assert (t[i].key, t[i].value) in Entries(t);
      }
    }
  }

  lemma {:induction false} LiveAll<V>(t: seq<Slot<V>>)
    requires forall i :: 0 <= i < |t| ==> t[i].Occupied?
    ensures Live(t) == |t|
  {
    if t != [] {
      LiveAll(t[..|t| - 1]);
    }
  }

  /** A probe round that met only live slots has met every slot. */
  lemma AllLive<V>(t: seq<Slot<V>>, home: nat)
    requires home < |t| && forall e :: 0 <= e < |t| ==> t[Pos(home, e, |t|)].Occupied?
    ensures forall i :: 0 <= i < |t| ==> t[i].Occupied?
  {
    forall i | 0 <= i < |t|
      ensures t[i].Occupied?
    {
      assert i == Pos(home, Dist(home, i, |t|), |t|);
    }
  }

  // ---------------------------------------------------------------- the three updates

  /** The table is sound for the hash function. */
  ghost predicate Sound<V>(t: seq<Slot<V>>, hash: Key -> nat)
  {
    t != [] && Chained(t, hash) && Distinct(t)
  }

  /** A new key in the slot where its probe sequence got to: an empty slot, or a tombstone before it. */
  lemma InsertIsSound<V>(t: seq<Slot<V>>, hash: Key -> nat, k: Key, v: V, d: nat)
    requires Sound(t, hash) && d < |t|
    requires Passed(t, Home(hash, k, |t|), k, d)
    requires !t[Pos(Home(hash, k, |t|), d, |t|)].Occupied?
    requires forall i :: 0 <= i < |t| ==> !Holds(t, i, k)
    ensures var t' := t[Pos(Home(hash, k, |t|), d, |t|) := Occupied(k, v)];
            Sound(t', hash) && MapOf(t') == MapOf(t)[k := v] && Live(t') == Live(t) + 1
  {
    var home := Home(hash, k, |t|);
    var p := Pos(home, d, |t|);
    var t' := t[p := Occupied(k, v)];
    assert Dist(home, p, |t|) == d;
    forall i, e | 0 <= i < |t'| && t'[i].Occupied? && 0 <= e < Dist(Home(hash, t'[i].key, |t'|), i, |t'|)
      ensures !t'[Pos(Home(hash, t'[i].key, |t'|), e, |t'|)].Empty?
    {
      if i != p {
        assert t[i].Occupied? && !t[Pos(Home(hash, t[i].key, |t|), e, |t|)].Empty?;
      }
    }
    DistinctAfter(t, p, k, v);
    UpdatedMap(t, p, k, v);
    LiveIsSize(t, MapOf(t));
    LiveIsSize(t', MapOf(t'));
    assert k !in MapOf(t);
  }

  /** A live key's value replaced in place. */
  lemma OverwriteIsSound<V>(t: seq<Slot<V>>, hash: Key -> nat, k: Key, v: V, p: nat)
    requires Sound(t, hash) && Holds(t, p, k)
    ensures var t' := t[p := Occupied(k, v)];
            Sound(t', hash) && MapOf(t') == MapOf(t)[k := v] && Live(t') == Live(t)
  {
    var t' := t[p := Occupied(k, v)];
    KeepsChains(t, t', hash);
    DistinctAfter(t, p, k, v);
    UpdatedMap(t, p, k, v);
    LiveIsSize(t, MapOf(t));
    LiveIsSize(t', MapOf(t'));
  }

  lemma DistinctAfter<V>(t: seq<Slot<V>>, p: nat, k: Key, v: V)
    requires p < |t| && Distinct(t)
    requires forall i :: 0 <= i < |t| && i != p ==> !Holds(t, i, k)
    ensures Distinct(t[p := Occupied(k, v)])
  {
    var t' := t[p := Occupied(k, v)];
    assert forall i :: 0 <= i < |t| && i != p ==> t'[i] == t[i] && !Holds(t, i, k);
  }

  lemma UpdatedMap<V>(t: seq<Slot<V>>, p: nat, k: Key, v: V)
    requires p < |t| && (t[p].Occupied? ==> t[p].key == k)
    requires Distinct(t) && Distinct(t[p := Occupied(k, v)])
    ensures MapOf(t[p := Occupied(k, v)]) == MapOf(t)[k := v]
  {
    var t', m := t[p := Occupied(k, v)], MapOf(t);
    var m' := m[k := v];
    forall i | 0 <= i < |t'| && t'[i].Occupied?
      ensures t'[i].key in m' && m'[t'[i].key] == t'[i].value
    {
      if i != p {
        assert t'[p].Occupied? && t[i] == t'[i];
      }
    }
    forall x | x in m'
      ensures exists i :: Holds(t', i, x)
    {
      if x == k {
        assert Holds(t', p, x);
      } else {
        var i :| Holds(t, i, x);
        assert Holds(t', i, x);
      }
    }
    RepresentsOne(t', MapOf(t'), m');
  }

  lemma RemovedMap<V>(t: seq<Slot<V>>, k: Key, p: nat)
    requires Distinct(t) && Holds(t, p, k)
    ensures Distinct(t[p := Deleted]) && MapOf(t[p := Deleted]) == MapOf(t) - {k}
  {
    var t' := t[p := Deleted];
    var m: map<Key, V> := MapOf(t);
    var m': map<Key, V> := m - {k};
    forall i | 0 <= i < |t'| && t'[i].Occupied?
      ensures t'[i].key in m' && m'[t'[i].key] == t'[i].value
    {
      assert i != p && t[i] == t'[i];
    }
    forall x | x in m'
      ensures exists i :: Holds(t', i, x)
    {
      var i :| Holds(t, i, x);
      assert Holds(t', i, x);
    }
    DistinctWithout(t, p);
    RepresentsOne(t', MapOf(t'), m');
  }

  lemma DistinctWithout<V>(t: seq<Slot<V>>, p: nat)
    requires Distinct(t) && p < |t|
    ensures Distinct(t[p := Deleted])
  {
  }

  /** A tombstone in place of a live key keeps every other chain whole. */
  lemma RemoveIsSound<V>(t: seq<Slot<V>>, hash: Key -> nat, k: Key, p: nat)
    requires Sound(t, hash) && Holds(t, p, k)
    ensures var t' := t[p := Deleted];
            Sound(t', hash) && MapOf(t') == MapOf(t) - {k} && Live(t') == Live(t) - 1
  {
    var t' := t[p := Deleted];
    KeepsChains(t, t', hash);
    RemovedMap(t, k, p);
    LiveIsSize(t, MapOf(t));
    LiveIsSize(t', MapOf(t'));
    SizeWithout(MapOf(t), k);
  }

  /** Chains survive any change that empties no slot and moves no live key. */
  lemma KeepsChains<V>(t: seq<Slot<V>>, t': seq<Slot<V>>, hash: Key -> nat)
    requires Chained(t, hash) && |t'| == |t|
    requires forall i :: 0 <= i < |t| ==> (t'[i].Empty? ==> t[i].Empty?)
    requires forall i :: 0 <= i < |t| && t'[i].Occupied? ==> t[i].Occupied? && t[i].key == t'[i].key
    ensures Chained(t', hash)
  {
  }

  lemma EmptyIsSound<V>(t: seq<Slot<V>>, hash: Key -> nat)
    requires t != [] && forall i :: 0 <= i < |t| ==> t[i].Empty?
    ensures Sound(t, hash) && MapOf(t) == map[] && Live(t) == 0
  {
    RepresentsOne(t, MapOf(t), map[]);
    LiveIsSize(t, MapOf(t));
  }
}
