/** Second-chance caches: a byte-budgeted clock for rows and spilled values, and the page
    cache of the page file. A hit is always what the store behind the cache would answer. */
module Caches {
  import opened Results

  datatype Cached<V> = Cached(value: V, referenced: bool)

  // ----- The cost of a set of entries ---------------------------------------

  ghost function Total<K, V>(entries: map<K, Cached<V>>, cost: (K, V) -> nat): nat
    decreases |entries|
  {
    if entries == map[] then 0
    else
      var k :| k in entries;
      assert k !in entries - {k};
      SmallerMap(entries, k);
      cost(k, entries[k].value) + Total(entries - {k}, cost)
  }

  lemma SmallerMap<K, V>(m: map<K, V>, k: K)
    requires k in m
    ensures |m - {k}| < |m|
  {
    assert (m - {k}).Keys == m.Keys - {k};
    assert |(m - {k}).Keys| == |m.Keys| - 1;
    assert |m - {k}| == |(m - {k}).Keys| && |m| == |m.Keys|;
  }

  /** Any entry can be split off the sum. */
  lemma {:induction false} TotalWithout<K, V>(entries: map<K, Cached<V>>, cost: (K, V) -> nat, k: K)
    requires k in entries
    ensures Total(entries, cost) == cost(k, entries[k].value) + Total(entries - {k}, cost)
    decreases |entries|
  {
    SmallerMap(entries, k);
    var x :| x in entries && Total(entries, cost) == cost(x, entries[x].value) + Total(entries - {x}, cost);
    if x != k {
      SmallerMap(entries, x);
      TotalWithout(entries - {x}, cost, k);
      TotalWithout(entries - {k}, cost, x);
      assert entries - {x} - {k} == entries - {k} - {x};
    }
  }

  lemma TotalPut<K, V>(entries: map<K, Cached<V>>, cost: (K, V) -> nat, k: K, c: Cached<V>)
    ensures Total(entries[k := c], cost) + (if k in entries then cost(k, entries[k].value) else 0) ==
            Total(entries, cost) + cost(k, c.value)
  {
    TotalWithout(entries[k := c], cost, k);
    if k in entries {
      TotalWithout(entries, cost, k);
      assert entries[k := c] - {k} == entries - {k};
    } else {
      assert entries[k := c] - {k} == entries;
    }
  }

  /** `after` lost some entries of `before` and changed none. */
  ghost predicate Kept<K(!new), V>(before: map<K, Cached<V>>, after: map<K, Cached<V>>) {
    forall k :: k in after ==> k in before && after[k].value == before[k].value
  }

  // ----- A byte-budgeted clock ----------------------------------------------

  class ClockCache<K(==, !new), V> {
    const budget: nat
    const cost: (K, V) -> nat
    var entries: map<K, Cached<V>>
    var clock: seq<K>
    var bytes: nat

    /** The byte count is exact and within the budget, and every entry is on the ring. */
    ghost predicate Valid()
      reads this
    {
      && bytes == Total(entries, cost) <= budget
      && (forall k :: k in entries ==> k in clock)
      && (budget == 0 ==> entries == map[])
    }

    constructor (budget: nat, cost: (K, V) -> nat)
      ensures Valid() && entries == map[] && this.budget == budget && this.cost == cost
    {
      this.budget, this.cost := budget, cost;
      entries, clock, bytes := map[], [], 0;
    }

    method Get(key: K) returns (r: Option<V>)
      requires Valid()
      modifies `entries
      ensures Valid() && entries.Keys == old(entries).Keys && Kept(old(entries), entries)
      ensures r == if key in old(entries) then Some(old(entries)[key].value) else None
    {
      if budget == 0 || key !in entries {
        return None;
      }
      var value := entries[key].value;
      TotalPut(entries, cost, key, Cached(value, true));
      entries := entries[key := Cached(value, true)];
      r := Some(value);
    }

    ghost function Referenced(): set<K>
      reads this
    {
      set k | k in entries && entries[k].referenced
    }

    /** One step of the hand: a referenced entry loses its bit, an unreferenced one goes, a
        lapsed slot is skipped. */
    method Turn()
      requires Valid() && clock != []
      modifies `entries, `clock, `bytes
      ensures Valid() && bytes <= old(bytes) && Kept(old(entries), entries)
      ensures Referenced() < old(Referenced()) || (Referenced() == old(Referenced()) && |clock| < |old(clock)|)
    {
      hide Total;
      var victim := clock[0];
      ghost var before := Referenced();
      if victim in entries && entries[victim].referenced {
        var c := Cached(entries[victim].value, false);
        TotalPut(entries, cost, victim, c);
        entries, clock := entries[victim := c], clock[1..] + [victim];
        assert victim in before && Referenced() == before - {victim};
      } else if victim in entries {
        TotalWithout(entries, cost, victim);
        bytes := bytes - cost(victim, entries[victim].value);
        entries, clock := entries - {victim}, clock[1..];
        assert Referenced() == before;
      } else {
        clock := clock[1..];
        assert Referenced() == before;
      }
    }

    /** Evicts until `need` more bytes fit. */
    method MakeRoom(need: nat)
      requires Valid() && need <= budget
      modifies `entries, `clock, `bytes
      ensures Valid() && bytes + need <= budget && Kept(old(entries), entries)
      ensures old(bytes) + need <= budget ==> entries == old(entries)
    {
      hide Total;
      while bytes + need > budget
        invariant Valid() && Kept(old(entries), entries) && bytes <= old(bytes)
        invariant old(bytes) + need <= budget ==> entries == old(entries)
        decreases Referenced(), |clock|
      {
        if clock == [] {
          RingEmpty();
          break;
        }
        Turn();
      }
    }

    lemma RingEmpty()
      requires Valid() && clock == []
      ensures bytes == 0
    {
      assert forall k :: k !in entries;
    }

    /** Remembers a value unless it would take an eighth of the budget. Nothing else changes
        but by eviction. */
    method Insert(key: K, value: V)
      requires Valid()
      modifies `entries, `clock, `bytes
      ensures Valid()
      ensures if budget > 0 && cost(key, value) <= budget / 8 then key in entries && entries[key].value == value
              else entries == old(entries)
      ensures forall k :: k in entries && k != key ==> k in old(entries) && entries[k].value == old(entries)[k].value
    {
      var need := cost(key, value);
      if budget == 0 || need > budget / 8 {
        return;
      }
      MakeRoom(need);
      TotalPut(entries, cost, key, Cached(value, false));
      if key in entries {
        bytes := bytes + need - cost(key, entries[key].value);
      } else {
        clock, bytes := clock + [key], bytes + need;
      }
      entries := entries[key := Cached(value, false)];
    }

    /** Drops a key; its ring slot is left to lapse. */
    method Invalidate(key: K)
      requires Valid()
      modifies `entries, `bytes
      ensures Valid() && entries == old(entries) - {key}
    {
      if budget == 0 {
        return;
      }
      if key in entries {
        TotalWithout(entries, cost, key);
        bytes := bytes - cost(key, entries[key].value);
        entries := entries - {key};
      }
    }
  }
}
