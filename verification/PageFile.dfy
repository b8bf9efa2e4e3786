/** The page file behind the tree: appended pages wait in a buffer for one write, a failed
    mutation discards them, and a clock cache serves repeated reads. */
module PageFile {
  import opened Results
  import opened Caches

  /** The slot's page was touched since the hand last passed. */
  predicate Spared<P>(pages: map<nat, Cached<P>>, clock: seq<nat>, slot: nat)
    requires slot < |clock|
  {
    clock[slot] in pages && pages[clock[slot]].referenced
  }

  /** `after` is `before` with `id` added and at most `victim` gone. */
  predicate OneOut(before: set<nat>, after: set<nat>, id: nat, victim: nat) {
    after == before - {victim} + {id}
  }

  /** The slots the hand has passed since `start`, around the ring if it lapped, hold no bit. */
  ghost predicate Swept<P>(pages: map<nat, Cached<P>>, clock: seq<nat>, start: nat, hand: nat, lapped: bool) {
    forall i :: 0 <= i < |clock| && (if lapped then i < hand || start <= i else start <= i < hand) ==>
          !Spared(pages, clock, i)
  }

  lemma SweepOn<P>(pages: map<nat, Cached<P>>, clock: seq<nat>, start: nat, hand: nat, lapped: bool)
    requires Swept(pages, clock, start, hand, lapped) && hand < |clock| && Spared(pages, clock, hand)
    ensures Swept(pages[clock[hand] := Cached(pages[clock[hand]].value, false)], clock, start, hand + 1, lapped)
  {
    var after := pages[clock[hand] := Cached(pages[clock[hand]].value, false)];
    forall i | 0 <= i < |clock| && !Spared(pages, clock, i) ensures !Spared(after, clock, i) {
    }
  }

  lemma SlotsKept(clock: seq<nat>, hand: nat, id: nat, k: nat)
    requires hand < |clock| && k in clock && k != clock[hand]
    ensures k in clock[hand := id]
  {
    var j :| 0 <= j < |clock| && clock[j] == k;
    assert clock[hand := id][j] == k;
  }

  class PageCache<P> {
    const capacity: nat
    var pages: map<nat, Cached<P>>
    var clock: seq<nat>
    var hand: nat

    /** Every cached page has a ring slot; slots of discarded pages may dangle. */
    ghost predicate Valid()
      reads this
    {
      1 <= capacity && |clock| <= capacity && forall id :: id in pages ==> id in clock
    }

    constructor (capacity: nat)
      ensures Valid() && pages == map[]
    {
      this.capacity := if capacity < 1 then 1 else capacity;
      pages, clock, hand := map[], [], 0;
    }

    /** Moves the hand to a page that may go. One lap plus one step always finds one, since the
        lap clears every bit it meets; the replacement after an exhausted sweep never runs. */
    method Sweep() returns (found: bool, steps: nat)
      requires Valid() && clock != []
      modifies `pages, `hand
      ensures Valid() && pages.Keys == old(pages).Keys && Kept(old(pages), pages)
      ensures found && hand < |clock| && !Spared(pages, clock, hand) && steps <= |clock|
    {
      steps, found := 0, false;
      if hand >= |clock| {
        hand := 0;
      }
      ghost var start, lapped := hand, false;
      while steps <= |clock| && !found
        invariant Valid() && pages.Keys == old(pages).Keys && Kept(old(pages), pages)
        invariant hand <= |clock| && start < |clock| && steps <= |clock|
        invariant steps == if lapped then |clock| - start + hand else hand - start
        invariant Swept(pages, clock, start, hand, lapped)
        invariant lapped ==> hand <= start
        invariant found ==> hand < |clock| && !Spared(pages, clock, hand)
        decreases |clock| + 1 - steps, !found
      {
        if hand >= |clock| {
          hand, lapped := 0, true;
        }
        if Spared(pages, clock, hand) {
          var candidate := clock[hand];
          assert !lapped || hand < start;
          SweepOn(pages, clock, start, hand, lapped);
          pages := pages[candidate := Cached(pages[candidate].value, false)];
          hand, steps := hand + 1, steps + 1;
        } else {
          found := true;
        }
      }
    }

    /** Admits a page, evicting at most one other when the ring is full. */
    method Admit(id: nat, page: P, referenced: bool)
      requires Valid()
      modifies `pages, `clock, `hand
      ensures Valid() && id in pages && pages[id].value == page
      ensures forall k :: k in pages && k != id ==> k in old(pages) && pages[k].value == old(pages)[k].value
      ensures id in old(pages) ==>
                pages.Keys == old(pages).Keys && (pages[id].referenced <==> referenced || old(pages)[id].referenced)
      ensures id !in old(pages) ==> exists victim :: OneOut(old(pages).Keys, pages.Keys, id, victim)
      ensures id !in old(pages) && |old(clock)| < capacity ==> pages.Keys == old(pages).Keys + {id}
    {
      if id in pages {
        pages := pages[id := Cached(page, referenced || pages[id].referenced)];
        return;
      }
      if |clock| < capacity {
        pages, clock := pages[id := Cached(page, referenced)], clock + [id];
        assert OneOut(old(pages).Keys, pages.Keys, id, id);
        return;
      }
      var _, _ := Sweep();
      var victim := clock[hand];
      pages := (pages - {victim})[id := Cached(page, referenced)];
      assert OneOut(old(pages).Keys, pages.Keys, id, victim);
      forall k | k in clock && k != victim ensures k in clock[hand := id] { SlotsKept(clock, hand, id, k); }
      assert clock[hand := id][hand] == id;
      clock, hand := clock[hand := id], hand + 1;
    }

    /** A hit marks the page as recently used. */
    method Hit(id: nat) returns (page: P)
      requires Valid() && id in pages
      modifies `pages
      ensures Valid() && page == old(pages)[id].value && pages.Keys == old(pages).Keys && Kept(old(pages), pages)
    {
      page := pages[id].value;
      pages := pages[id := Cached(page, true)];
    }

    method Remove(id: nat)
      requires Valid()
      modifies `pages
      ensures Valid() && pages == old(pages) - {id}
    {
      pages := pages - {id};
    }
  }

  datatype PageError = OutOfBounds(id: nat)

  class PageManager<P> {
    const cache: PageCache<P>
    var file: seq<P>
    var pending: seq<P>

    /** The pages a reader may ask for: the flushed ones, then the buffered ones. */
    ghost function Contents(): seq<P>
      reads this
    {
      file + pending
    }

    /** Every cached page is the page the file or the buffer holds. */
    ghost predicate Valid()
      reads this, cache
    {
      cache.Valid() && forall id :: id in cache.pages ==> id < |Contents()| && cache.pages[id].value == Contents()[id]
    }

    constructor (pages: seq<P>, capacity: nat)
      ensures Valid() && Contents() == pages && fresh(cache)
    {
      cache := new PageCache(capacity);
      file, pending := pages, [];
    }

    method Read(id: nat) returns (r: Result<P, PageError>)
      requires Valid()
      modifies cache
      ensures Valid() && r == if id < |Contents()| then Ok(Contents()[id]) else Err(OutOfBounds(id))
    {
      if id in cache.pages {
        var page := cache.Hit(id);
        return Ok(page);
      }
      if id >= |file| + |pending| {
        return Err(OutOfBounds(id));
      }
      var page := if id >= |file| then pending[id - |file|] else file[id];
      cache.Admit(id, page, true);
      return Ok(page);
    }

    method Append(page: P) returns (id: nat)
      requires Valid()
      modifies this, cache
      ensures Valid() && Contents() == old(Contents()) + [page] && id == |old(Contents())| && file == old(file)
    {
      id := |file| + |pending|;
      pending := pending + [page];
      assert Contents() == old(Contents()) + [page];
      cache.Admit(id, page, false);
    }

    /** Writes the buffer to the file in one piece. */
    method Flush()
      requires Valid()
      modifies this
      ensures Valid() && Contents() == old(Contents()) && pending == []
    {
      file, pending := file + pending, [];
      assert Contents() == old(Contents());
    }

    /** Drops the buffered pages of a failed mutation and reclaims their ids. */
    method Discard()
      requires Valid()
      modifies this, cache
      ensures Valid() && Contents() == old(file) && pending == []
    {
      if pending == [] {
        return;
      }
      var count := |file| + |pending|;
      for id := |file| to count
        invariant unchanged(this) && cache.Valid() && Kept(old(cache.pages), cache.pages)
        invariant forall k :: k in cache.pages ==> k < |file| || id <= k
      {
        cache.Remove(id);
      }
      pending := [];
    }
  }
}
