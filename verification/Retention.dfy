/** Archiving of sealed log segments beside the checkpoint's and the pruner's deletions: every
    logged record stays in a local segment or in an indexed archive copy. */
module Retention {
  import opened Results
  import opened Replay

  /** A segment file: the LSN its header starts at, and its records. */
  datatype Segment = Segment(first: nat, records: seq<Record>)

  datatype IndexEntry = IndexEntry(first: nat, last: int, size: nat, crc: nat)

  datatype ArchiveError = DifferentTimeline | Disappeared(id: nat) | Spliced(id: nat) | NotArchived(id: nat)

  function LastLsn(s: Segment): int {
    s.first + |s.records| - 1
  }

  // ----- The log as one chain of segments -----------------------------------

  predicate Numbered(s: Segment) {
    forall i :: 0 <= i < |s.records| ==> s.records[i].lsn == s.first + i
  }

  ghost predicate Ids(s: set<nat>, from: nat, to: nat) {
    forall id: nat :: id in s <==> from <= id <= to
  }

  /** Segments 1 to `active`, each starting where its predecessor ends. */
  ghost predicate Chained(h: map<nat, Segment>, active: nat) {
    && 1 <= active && Ids(h.Keys, 1, active) && h[1].first == 1
    && (forall id: nat :: 1 <= id <= active ==> Numbered(h[id]))
    && (forall id: nat :: 1 <= id < active ==> Follows(h[id], h[id + 1]))
  }

  predicate Follows(s: Segment, t: Segment) {
    t.first == s.first + |s.records|
  }

  lemma {:induction false} ChainOrdered(h: map<nat, Segment>, active: nat, i: nat, j: nat)
    requires Chained(h, active) && 1 <= i < j <= active
    ensures h[i].first <= h[i].first + |h[i].records| <= h[j].first
    decreases j - i
  {
    assert Follows(h[j - 1], h[j]);
    if i < j - 1 { ChainOrdered(h, active, i, j - 1); }
  }

  /** Every LSN of the chain lies in one of its segments. */
  lemma {:induction false} ChainHolds(h: map<nat, Segment>, active: nat, lsn: nat) returns (id: nat)
    requires Chained(h, active) && 1 <= lsn < h[active].first + |h[active].records|
    ensures 1 <= id <= active && h[id].first <= lsn < h[id].first + |h[id].records|
  {
    id := active;
    while lsn < h[id].first
      invariant 1 <= id <= active && lsn < h[id].first + |h[id].records|
      decreases id
    {
      assert Follows(h[id - 1], h[id]);
      id := id - 1;
    }
  }

  /** Where the history stands after other steps: sealed segments are immutable. */
  ghost predicate SealedKept(h: map<nat, Segment>, active: nat, h': map<nat, Segment>, active': nat) {
    && active <= active' && Ids(h.Keys, 1, active) && Ids(h'.Keys, 1, active')
    && (forall id: nat :: 1 <= id < active ==> h'[id] == h[id])
  }

  datatype ArchiveStep =
    | Commit(ops: seq<Operation>)
    | RotateForArchive
    | Rotate
    | Checkpoint(retired: Option<nat>)
    | Crash(keep: nat)
    | Prune(through: nat)

  function MaxId(ids: set<nat>): (r: nat)
    ensures ids == {} ==> r == 0
    ensures ids != {} ==> r in ids
    ensures forall id :: id in ids ==> id <= r
  {
    if ids == {} then 0
    else
      HasMax(ids);
      var m :| m in ids && forall id :: id in ids ==> id <= m;
      m
  }

  lemma {:induction false} HasMax(ids: set<nat>)
    requires ids != {}
    ensures exists m :: m in ids && forall id :: id in ids ==> id <= m
    decreases |ids|
  {
    var x :| x in ids;
    var rest := ids - {x};
    if rest == {} {
      assert ids == {x};
    } else {
      HasMax(rest);
      var y :| y in rest && forall id :: id in rest ==> id <= y;
      var m := if x < y then y else x;
      forall id | id in ids ensures id <= m {
        assert id == x || id in rest;
      }
    }
  }

  /** The sealed segments of a listing: all but its highest. */
  function Candidates(listed: set<nat>): set<nat> {
    listed - {MaxId(listed)}
  }

  // ----- The two directories ------------------------------------------------

  ghost predicate LocalOf(local: map<nat, Segment>, lowest: nat, active: nat, h: map<nat, Segment>) {
    1 <= lowest <= active && Ids(local.Keys, lowest, active) && Ids(h.Keys, 1, active) && forall id :: id in local ==>
        local[id] == h[id]
  }

  /** Indexed copies are the sealed segments themselves. */
  ghost predicate ArchivedOf(copies: map<nat, Segment>, index: map<nat, IndexEntry>, active: nat, h: map<nat, Segment>,
                             entry: Segment -> IndexEntry) {
    Ids(h.Keys, 1, active) && forall id :: id in index ==>
        1 <= id < active && id in copies && copies[id] == h[id] && index[id] == entry(h[id])
  }

  /** Everything deleted, and everything the watermark vouches for, is indexed. */
  ghost predicate Vouched(index: map<nat, IndexEntry>, lowest: nat, watermark: nat) {
    forall id: nat :: 1 <= id && (id < lowest || id <= watermark) ==> id in index
  }

  /** The manifest covers everything below the lowest local segment, and nothing unlogged. */
  ghost predicate Reaches(h: map<nat, Segment>, lowest: nat, active: nat, manifest: nat) {
    lowest in h && active in h && h[lowest].first <= manifest + 1 <= h[active].first + |h[active].records|
  }

  /** A change of the active segment keeps the chain and touches nothing sealed. */
  lemma ActiveChanges(h: map<nat, Segment>, active: nat, t: Segment)
    requires Chained(h, active) && t.first == h[active].first && Numbered(t)
    ensures Chained(h[active := t], active) && SealedKept(h, active, h[active := t], active)
  {
    var h' := h[active := t];
    forall id: nat | 1 <= id < active ensures Follows(h'[id], h'[id + 1]) {
      assert Follows(h[id], h[id + 1]);
    }
  }

  lemma SegmentAdded(h: map<nat, Segment>, active: nat)
    requires Chained(h, active)
    ensures var t := Segment(h[active].first + |h[active].records|, []);
            Chained(h[active + 1 := t], active + 1) && SealedKept(h, active, h[active + 1 := t], active + 1)
  {
    var h' := h[active + 1 := Segment(h[active].first + |h[active].records|, [])];
    forall id: nat | 1 <= id < active + 1 ensures Follows(h'[id], h'[id + 1]) {
      if id < active { assert Follows(h[id], h[id + 1]); }
    }
  }

  lemma ArchivedKept(copies: map<nat, Segment>, index: map<nat, IndexEntry>, active: nat, h: map<nat, Segment>,
                     active': nat, h': map<nat, Segment>,
                     entry: Segment -> IndexEntry)
    requires ArchivedOf(copies, index, active, h, entry) && SealedKept(h, active, h', active')
    ensures ArchivedOf(copies, index, active', h', entry)
  {
  }

  lemma SealedSelf(h: map<nat, Segment>, active: nat)
    requires Chained(h, active)
    ensures SealedKept(h, active, h, active)
  {
  }

  lemma NextNumbered(h: map<nat, Segment>, active: nat, s: Segment, ops: seq<Operation>)
    requires Chained(h, active) && s == h[active]
    ensures Numbered(Segment(s.first, s.records + [Record(s.first + |s.records|, ops)]))
  {
    assert Numbered(h[active]);
  }

  /** The log directory between two steps: every segment so far, the active one, what the manifest
      covers, and the lowest segment that is still there. */
  datatype Disk = Disk(history: map<nat, Segment>, active: nat, manifest: int, lowest: nat)

  /** What a step of the engine makes of it. */
  ghost predicate Moves(d: Disk, step: ArchiveStep, watermark: nat, index: map<nat, IndexEntry>, n: Disk) {
    && d.active in d.history
    && var s := d.history[d.active];
       var sealed := d.(active := d.active + 1,
                        history := d.history[d.active + 1 := Segment(s.first + |s.records|, [])]);
       match step
       case Commit(ops) =>
         n == d.(history := d.history[d.active := Segment(s.first, s.records + [Record(s.first + |s.records|, ops)])])
       case RotateForArchive => n == if s.records != [] then sealed else d
       case Rotate => n == sealed
       case Crash(keep) =>
         n == if keep <= |s.records| && d.manifest < s.first + keep
              then d.(history := d.history[d.active := Segment(s.first, s.records[..keep])]) else d
       case Checkpoint(None) => n == d.(manifest := s.first + |s.records| - 1)
       case Checkpoint(Some(retired)) =>
         && n == sealed.(manifest := s.first + |s.records| - 1, lowest := n.lowest)
         && d.lowest <= n.lowest <= d.lowest + retired && n.lowest <= n.active
         && (n.lowest == d.lowest || n.lowest <= watermark + 1)
         && (n.lowest == n.active || n.lowest > watermark || n.lowest == d.lowest + retired)
       case Prune(through) =>
         && n == d.(lowest := n.lowest)
         && if exists id: nat :: d.lowest <= id <= d.active && id <= through && id !in index then n == d
            else forall id: nat :: d.lowest <= id <= d.active ==>
                   (id < n.lowest <==>
                      && id <= through && id < d.active && id in d.history
                      && d.history[id].first + |d.history[id].records| <= d.manifest + 1)
  }

  class Archiver {
    const digest: Segment -> nat
    const size: Segment -> nat

    // The wal directory holds segments `lowest` to `active`.
    var local: map<nat, Segment>
    var lowest: nat
    var active: nat
    var manifest: nat

    // The archive directory: copied files, and the index that vouches for them.
    var copies: map<nat, Segment>
    var index: map<nat, IndexEntry>

    // What checkpoints are told is safely archived.
    var watermark: nat

    /** Every segment ever sealed, and the active one. */
    ghost var history: map<nat, Segment>

    function EntryOf(s: Segment): IndexEntry {
      IndexEntry(s.first, LastLsn(s), size(s), digest(s))
    }

    /** The two directories hold what they held when it was written. */
    ghost predicate Shaped()
      reads this
    {
      && Chained(history, active) && LocalOf(local, lowest, active, history)
      && ArchivedOf(copies, index, active, history, EntryOf) && Reaches(history, lowest, active, manifest)
    }

    /** Nothing deleted, and nothing the watermark lets a checkpoint delete, is missing from the archive. */
    ghost predicate Valid()
      reads this
    {
      Shaped() && Vouched(index, lowest, watermark)
    }

    /** The first database: one empty segment. */
    constructor (digest: Segment -> nat, size: Segment -> nat)
      ensures Valid() && history == map[1 := Segment(1, [])] && lowest == active == 1 && index == map[]
      ensures watermark == 0
    {
      this.digest, this.size := digest, size;
      local, lowest, active, manifest := map[1 := Segment(1, [])], 1, 1, 0;
      copies, index, watermark := map[], map[], 0;
      history := map[1 := Segment(1, [])];
    }

    ghost predicate InLocal(lsn: nat)
      reads this
    {
      exists id :: id in local && local[id].first <= lsn <= LastLsn(local[id])
    }

    ghost predicate InArchive(lsn: nat)
      reads this
    {
      exists id :: id in index && id in copies && copies[id].first <= lsn <= LastLsn(copies[id])
    }

    ghost function Logged(): int
      requires Chained(history, active)
      reads this
    {
      LastLsn(history[active])
    }

    /** Each logged LSN stays in the archive or in a local segment, and local segments hold
        every record above the manifest. */
    lemma NothingLost(lsn: nat)
      requires Shaped() && Vouched(index, lowest, 0) && 1 <= lsn <= Logged()
      ensures InArchive(lsn) || InLocal(lsn)
      ensures manifest < lsn ==> InLocal(lsn)
    {
      var id := ChainHolds(history, active, lsn);
      if id in local {
        assert local[id].first <= lsn <= LastLsn(local[id]);
      } else {
        assert id in index && copies[id].first <= lsn <= LastLsn(copies[id]);
        ChainOrdered(history, active, id, lowest);
      }
    }

    // ----- The engine's own steps -------------------------------------------

    /** Replaces the active segment. */
    method SetActive(t: Segment)
      requires Shaped() && t.first == local[active].first && Numbered(t) && manifest + 1 <= t.first + |t.records|
      modifies `local, `history
      ensures Shaped() && SealedKept(old(history), active, history, active)
      ensures local == old(local)[active := t] && history == old(history)[active := t]
    {
      hide Chained, SealedKept, Numbered;
      ActiveChanges(history, active, t);
      ArchivedKept(copies, index, active, history, active, history[active := t], EntryOf);
      assert history[active := t][lowest].first == history[lowest].first;
      local, history := local[active := t], history[active := t];
    }

    method Append(ops: seq<Operation>)
      requires Shaped()
      modifies `local, `history
      ensures Shaped() && SealedKept(old(history), active, history, active) && Logged() == old(Logged()) + 1
      ensures local[active] == Segment(old(local[active].first), old(local[active].records) + [Record(Logged(), ops)])
      ensures history == old(history)[active := local[active]]
    {
      hide Chained, SealedKept, ArchivedOf, Numbered;
      var s := local[active];
      NextNumbered(history, active, s, ops);
      SetActive(Segment(s.first, s.records + [Record(s.first + |s.records|, ops)]));
    }

    /** A crash may lose records of the active segment that were never synced; what the
        manifest covers was. */
    method Crash(keep: nat)
      requires Shaped()
      modifies `local, `history
      ensures Shaped() && SealedKept(old(history), active, history, active) && manifest <= Logged() <= old(Logged())
      ensures var s := old(local[active]);
              history == if keep <= |s.records| && manifest < s.first + keep
              then old(history)[active := Segment(s.first, s.records[..keep])] else old(history)
    {
      var s := local[active];
      if keep <= |s.records| && manifest < s.first + keep {
        SetActive(Segment(s.first, s.records[..keep]));
      }
    }

    /** Seals the active segment. */
    method RotateSegment()
      requires Shaped()
      modifies `local, `history, `active
      ensures Shaped() && SealedKept(old(history), old(active), history, active) && Logged() == old(Logged())
      ensures active == old(active) + 1 && history == old(history)[active := Segment(Logged() + 1, [])]
    {
      hide Chained, SealedKept, Numbered;
      var s := local[active];
      var t := Segment(s.first + |s.records|, []);
      SegmentAdded(history, active);
      ArchivedKept(copies, index, active, history, active + 1, history[active + 1 := t], EntryOf);
      active, local, history := active + 1, local[active + 1 := t], history[active + 1 := t];
    }

    /** Deletes the lowest segment. */
    method Delete()
      requires Shaped() && lowest < active && CoveredBy(history, lowest, manifest)
      modifies `local, `lowest
      ensures Shaped() && lowest == old(lowest) + 1 && local == old(local) - {old(lowest)}
    {
      hide Chained, Numbered, ArchivedOf;
      local, lowest := local - {lowest}, lowest + 1;
    }

    /** Publishes a checkpoint; unless it stops there, seals the segment and deletes sealed
        segments in order, as far as the watermark allows and until `retired` are gone. */
    method Checkpoint(retired: Option<nat>)
      requires Shaped()
      modifies `local, `history, `active, `manifest, `lowest
      ensures Shaped() && SealedKept(old(history), old(active), history, active) && (old(Valid()) ==> Valid())
      ensures manifest == old(Logged()) == Logged() && old(lowest) <= lowest
      ensures (lowest == old(lowest) || lowest <= watermark + 1)
      ensures active == if retired.Some? then old(active) + 1 else old(active)
      ensures history == if retired.Some? then old(history)[active := Segment(Logged() + 1, [])] else old(history)
      ensures if retired.Some? then lowest <= old(lowest) + retired.value else lowest == old(lowest)
      ensures retired.Some? ==> lowest == active || lowest > watermark || lowest == old(lowest) + retired.value
    {
      hide Chained, Numbered, ArchivedOf, SealedKept;
      SealedSelf(history, active);
      manifest := local[active].first + |local[active].records| - 1;
      AtMostLogged(history, lowest, active);
      if retired.Some? {
        RotateSegment();
        RetireSegments(retired.value);
      }
    }

    method RetireSegments(retired: nat)
      requires Shaped() && history[active].first == manifest + 1
      modifies `local, `lowest
      ensures Shaped() && old(lowest) <= lowest <= old(lowest) + retired
      ensures (lowest == old(lowest) || lowest <= watermark + 1)
      ensures lowest == active || lowest > watermark || lowest == old(lowest) + retired
    {
      hide Chained, Numbered, ArchivedOf;
      var count := 0;
      while lowest < active && lowest <= watermark && count < retired
        invariant Shaped() && lowest == old(lowest) + count && count <= retired
        invariant (count > 0 ==> lowest <= watermark + 1)
        decreases active - lowest
      {
        SuccessorBelow(history, active, lowest);
        Delete();
        count := count + 1;
      }
    }

    // ----- Pruning an offline database --------------------------------------

    /** Deletes local segments up to `through`: exactly those sealed, and covered by the
        manifest. A segment in reach that the index does not name refuses the whole call. */
    method PruneWal(through: nat) returns (r: Result<nat, ArchiveError>)
      requires Valid()
      modifies `local, `lowest
      ensures Valid()
      ensures r.Err? <==> exists id :: id in old(local) && id <= through && id !in index
      ensures r.Err? ==> local == old(local)
      ensures r.Ok? ==> r.value == lowest - old(lowest) && forall id ::
                id in old(local) && id !in local <==>
                  && id in old(local) && id <= through && id < active && id in history
                  && history[id].first + |history[id].records| <= manifest + 1
    {
      hide Chained, Numbered, ArchivedOf, Ids;
      var id := lowest;
      while id <= active
        invariant unchanged(this) && lowest <= id <= active + 1
        invariant forall j: nat :: lowest <= j < id && j <= through ==>
                    j in index
      {
        InLocalIs(local, lowest, active, history, id);
        if id <= through && id !in index {
          return Err(NotArchived(id));
        }
        id := id + 1;
      }
      AllNamed(local, lowest, active, history, index, through);
      var covered := 0;
      id := lowest;
      while id < active
        invariant unchanged(this) && lowest <= id <= active && (covered == if id == lowest then 0 else id - 1)
        invariant forall j: nat :: lowest <= j < id ==> CoveredBy(history, j, manifest)
      {
        InLocalIs(local, lowest, active, history, id + 1);
        if local[id + 1].first > manifest + 1 {
          break;
        }
        covered, id := id, id + 1;
      }
      BeyondCovered(history, active, id, manifest);
      var cutoff := if covered < through then covered else through;
      r := DeleteThrough(cutoff, id);
      DeletedIs(old(local), old(lowest), local, lowest, active, history, through, id, manifest);
      DeletedCovered(old(local), old(lowest), local, active, history, through, manifest);
    }

    method DeleteThrough(cutoff: nat, ghost end: nat) returns (r: Result<nat, ArchiveError>)
      requires Valid() && lowest <= end <= active && (cutoff < lowest || cutoff < end)
      requires forall j: nat :: lowest <= j < end ==> CoveredBy(history, j, manifest)
      requires forall j: nat :: lowest <= j <= cutoff ==> j in index
      modifies `local, `lowest
      ensures Valid() && r == Ok(lowest - old(lowest))
      ensures lowest == if cutoff < old(lowest) then old(lowest) else cutoff + 1
    {
      hide Chained, Numbered, ArchivedOf;
      var deleted := 0;
      while lowest <= cutoff
        invariant Valid() && lowest == old(lowest) + deleted && (lowest == old(lowest) || lowest <= cutoff + 1)
        decreases cutoff + 1 - lowest
      {
        Delete();
        deleted := deleted + 1;
      }
      r := Ok(deleted);
    }

    // ----- Everything but the archiver --------------------------------------

    ghost function Now(): Disk
      reads this
    {
      Disk(history, active, manifest, lowest)
    }

    method Take(step: ArchiveStep)
      requires Valid()
      modifies `local, `history, `active, `manifest, `lowest
      ensures Valid() && SealedKept(old(history), old(active), history, active)
      ensures Moves(old(Now()), step, watermark, index, Now())
    {
      hide Chained, Numbered, ArchivedOf, Ids, SealedKept, Reaches;
      InLocalIs(local, lowest, active, history, active);
      SealedSelf(history, active);
      match step
      case Commit(ops) => Append(ops);
      case RotateForArchive => if local[active].records != [] { RotateSegment(); }
      case Rotate => RotateSegment();
      case Checkpoint(retired) => Checkpoint(retired);
      case Crash(keep) => Crash(keep);
      case Prune(through) => TakePrune(through);
    }

    method TakePrune(through: nat)
      requires Valid()
      modifies `local, `lowest
      ensures Valid() && Moves(old(Now()), Prune(through), watermark, index, Now())
    {
      hide Chained, Numbered, ArchivedOf, SealedKept, Reaches, LocalOf;
      ghost var before, was := lowest, local;
      LocalIds(local, lowest, active, history);
      var r := PruneWal(through);
      LocalIds(local, lowest, active, history);
      if r.Err? {
        SameLowest(was, before, lowest, active);
        ghost var id: nat :| id in was && id <= through && id !in index;
        assert before <= id <= active;
      } else {
        assert forall id: nat :: before <= id <= active && id <= through ==> id in was && id in index;
        forall id: nat | before <= id <= active
          ensures id < lowest <==>
                  && id <= through && id < active && id in history
                  && history[id].first + |history[id].records| <= manifest + 1
        {
          assert id in was;
        }
      }
    }

    method Run(steps: seq<ArchiveStep>) returns (ghost trace: seq<Disk>)
      requires Valid()
      modifies `local, `history, `active, `manifest, `lowest
      ensures Valid() && SealedKept(old(history), old(active), history, active)
      ensures |trace| == |steps| + 1 && trace[0] == old(Now()) && trace[|steps|] == Now()
      ensures forall i :: 0 <= i < |steps| ==> Moves(trace[i], steps[i], watermark, index, trace[i + 1])
    {
      hide Moves, Chained, SealedKept, Now;
      trace := [Now()];
      SealedSelf(history, active);
      for i := 0 to |steps|
        invariant Valid() && SealedKept(old(history), old(active), history, active)
        invariant |trace| == i + 1 && trace[0] == old(Now()) && trace[i] == Now()
        invariant forall j :: 0 <= j < i ==> Moves(trace[j], steps[j], watermark, index, trace[j + 1])
      {
        ghost var h, a := history, active;
        Take(steps[i]);
        SealedTrans(old(history), old(active), h, a, history, active);
        trace := trace + [Now()];
      }
    }

    // ----- Archiving --------------------------------------------------------

    /** The index, or the copy it vouches for, already matches the segment. */
    predicate Healthy(id: nat)
      reads this
    {
      id in index && id in copies && size(copies[id]) == index[id].size && digest(copies[id]) == index[id].crc
    }

    /** The segment contradicts what is indexed under its id or beside it. */
    predicate Foreign(id: nat, s: Segment)
      reads this
    {
      || (id in index && (index[id].crc != digest(s) || index[id].first != s.first || index[id].size != size(s)))
      || (!Healthy(id) && exists other :: other in index && other != id && Overlaps(index[other], s))
    }

    /** Archives one candidate as it was read: skips a segment that is gone but indexed,
        refuses a foreign one, heals a copy that no longer matches its entry. */
    method Publish(id: nat, read: Option<Segment>) returns (r: Result<nat, ArchiveError>)
      modifies `copies, `index
      ensures r.Ok? <==> if read.None? then id in old(index) else !Splice(read.value) && !old(Foreign(id, read.value))
      ensures if r.Ok? && read.Some? && !old(Healthy(id))
              then copies == old(copies)[id := read.value] && index == old(index)[id := EntryOf(read.value)]
              else copies == old(copies) && index == old(index)
    {
      if read.None? {
        return if id in index then Ok(id) else Err(Disappeared(id));
      }
      var s := read.value;
      if Splice(s) {
        return Err(Spliced(id));
      }
      if id in index && (index[id].crc != digest(s) || index[id].first != s.first || index[id].size != size(s)) {
        return Err(DifferentTimeline);
      }
      if Healthy(id) {
        return Ok(id);
      }
      if exists other :: other in index && other != id && Overlaps(index[other], s) {
        return Err(DifferentTimeline);
      }
      copies, index := copies[id := s], index[id := EntryOf(s)];
      r := Ok(id);
    }

    /** A sealed segment of this timeline is never refused. */
    lemma OwnSegment(id: nat)
      requires Valid() && 1 <= id < active
      ensures !Splice(history[id]) && !Foreign(id, history[id])
    {
      hide LocalOf, Vouched, Reaches;
      assert Numbered(history[id]);
      forall other | other in index && other != id ensures !Overlaps(index[other], history[id]) {
        if other < id { ChainOrdered(history, active, other, id); } else { ChainOrdered(history, active, id, other); }
      }
    }

    /** A segment that is not this timeline's is refused: one whose bytes differ from what is archived
        under its id, and one that is not archived yet but shares an LSN with an archived segment. */
    lemma OtherTimeline(id: nat, s: Segment, other: nat, lsn: nat)
      requires Valid()
      ensures id in index && digest(s) != digest(history[id]) ==> Foreign(id, s)
      ensures id !in index && other in index && s.first <= lsn < s.first + |s.records| ==>
                history[other].first <= lsn < history[other].first + |history[other].records| ==> Foreign(id, s)
    {
      hide Chained, LocalOf, Vouched, Reaches, Numbered;
    }

    /** What the archiver finds of a sealed segment: the segment, or, after a deletion, an
        index entry for it. */
    method ReadSegment(id: nat) returns (read: Option<Segment>)
      requires Valid() && 1 <= id < active
      ensures if read.Some? then read.value == history[id] else id in index
    {
      read := if id in local then Some(local[id]) else None;
    }

    method PublishOwn(id: nat, read: Option<Segment>) returns (r: Result<nat, ArchiveError>)
      requires Valid() && 1 <= id < active && if read.Some? then read.value == history[id] else id in index
      modifies `copies, `index
      ensures Valid() && r.Ok? && index.Keys == old(index).Keys + {id}
    {
      hide Chained, LocalOf, Reaches, Splice, Foreign;
      OwnSegment(id);
      r := Publish(id, read);
    }

    /** One candidate: other steps may run before its file is read and before it is published. */
    method ArchiveOne(id: nat, first: seq<ArchiveStep>, second: seq<ArchiveStep>) returns (r: Result<nat, ArchiveError>)
      requires Valid() && 1 <= id < active
      modifies this
      ensures Valid() && watermark == old(watermark) && SealedKept(old(history), old(active), history, active)
      ensures r.Ok? && index.Keys == old(index).Keys + {id}
    {
      hide Chained, LocalOf, ArchivedOf, Vouched, Reaches, SealedKept;
      ghost var _ := Run(first);
      SealedAt(old(history), old(active), history, active, id);
      var read := ReadSegment(id);
      ghost var h, a := history, active;
      ghost var _ := Run(second);
      SealedTrans(old(history), old(active), h, a, history, active);
      SealedAt(h, a, history, active, id);
      r := PublishOwn(id, read);
    }

    /** One archiving pass over a directory listing, with other steps before and after each
        read. It succeeds unless the index already reaches the listing's highest segment,
        indexes exactly the candidates, and returns the highest indexed id. */
    method ArchivePending(listed: set<nat>, others: nat -> seq<ArchiveStep>) returns (r: Result<nat, ArchiveError>)
      requires Valid() && forall id :: id in listed ==> 1 <= id <= active
      modifies this
      ensures Valid() && watermark == old(watermark) && SealedKept(old(history), old(active), history, active)
      ensures r.Ok? <==> old(index) == map[] || MaxId(old(index).Keys) < MaxId(listed)
      ensures r.Ok? ==> index.Keys == old(index).Keys + Candidates(listed) && r.value == MaxId(index.Keys)
      ensures r.Err? ==> index == old(index)
    {
      hide SealedKept, MaxId, Candidates, Shaped, Vouched;
      StillSealed();
      if index != map[] && MaxId(index.Keys) >= MaxId(listed) {
        return Err(DifferentTimeline);
      }
      var left := Candidates(listed);
      var n, done := 0, Ok(0);
      assert Candidates(listed) - left == {};
      while left != {} && done.Ok?
        invariant Valid() && watermark == old(watermark) && SealedKept(old(history), old(active), history, active)
        invariant left <= Candidates(listed) && done.Ok? && index.Keys == old(index).Keys + (Candidates(listed) - left)
        decreases |left|
      {
        ghost var h, a := history, active;
        var id := Least(left);
        CandidateSealed(old(history), old(active), listed, id, h, a);
        done := ArchiveOne(id, others(2 * n), others(2 * n + 1));
        SealedTrans(old(history), old(active), h, a, history, active);
        IndexGrows(old(index).Keys, Candidates(listed), left, id, index.Keys);
        left, n := left - {id}, n + 1;
      }
      assert Candidates(listed) - {} == Candidates(listed);
      r := Finished(done, MaxId(index.Keys));
    }

    lemma StillSealed()
      requires Valid()
      ensures SealedKept(history, active, history, active)
    {
    }

    /** A tick whose listing was taken at one instant: afterwards every segment that was sealed
        when it began is archived, and vouched for. */
    method TickAtOnce(others: nat -> seq<ArchiveStep>, later: seq<ArchiveStep>)
      requires Valid()
      modifies this
      ensures Valid() && watermark == old(active) - 1 && forall id: nat :: 1 <= id < old(active) ==> id in index
    {
      hide Chained, Reaches, SealedKept, MaxId, Candidates, Refuses;
      AtomicListing(local, lowest, active, history, index);
      Tick(local.Keys, others, later);
    }

    /** A tick, and whether it left the archive complete. */
    method TickOnce(listed: set<nat>, others: nat -> seq<ArchiveStep>, later: seq<ArchiveStep>) returns (complete: bool)
      requires Valid() && forall id :: id in listed ==> 1 <= id <= active
      modifies this
      ensures Shaped() && SealedKept(old(history), old(active), history, active)
      ensures complete <==> Valid()
      ensures complete <==> !Overruns(old(index), listed)
      ensures index.Keys == if Refuses(old(index), listed) then old(index).Keys
              else old(index).Keys + Candidates(listed)
    {
      hide Chained, Reaches, SealedKept, MaxId, Candidates, Refuses, Vouched;
      var refused := Refuses(index, listed);
      var archived := index.Keys + Candidates(listed);
      var gapless := forall id | 1 <= id <= MaxId(archived) :: id in archived;
      complete := refused || gapless;
      Tick(listed, others, later);
    }

    /** A tick: a pass over one listing of the wal directory, then the watermark it returned is
        handed to the checkpoints. The handover keeps the archive complete exactly when the
        listing left no unindexed segment out below its highest candidate. */
    method Tick(listed: set<nat>, others: nat -> seq<ArchiveStep>, later: seq<ArchiveStep>)
      requires Valid() && forall id :: id in listed ==> 1 <= id <= active
      modifies this
      ensures Shaped() && Vouched(index, lowest, 0) && SealedKept(old(history), old(active), history, active)
      ensures if Refuses(old(index), listed) then index == old(index) && watermark == old(watermark)
              else index.Keys == old(index).Keys + Candidates(listed) && watermark == MaxId(index.Keys)
      ensures Valid() <==> Refuses(old(index), listed) || Gapless(old(index), listed)
    {
      hide Chained, Reaches, SealedKept, LocalOf, ArchivedOf, MaxId, Candidates;
      var r := ArchivePending(listed, others);
      ghost var h, a := history, active;
      ghost var _ := Run(later);
      SealedTrans(old(history), old(active), h, a, history, active);
      match r {
        case Ok(w) =>
          VouchesExactly(listed, old(index), index, lowest);
          watermark := w;
        case Err(_) =>
      }
    }
  }

  /** A tick, with what the engine does before it, between its copies and before the handover. */
  datatype Round = Round(before: seq<ArchiveStep>, listed: set<nat>, others: nat -> seq<ArchiveStep>,
                         later: seq<ArchiveStep>)

  /** The listing lets the watermark pass a segment that is not archived. */
  ghost predicate Overruns(index: map<nat, IndexEntry>, listed: set<nat>) {
    !Refuses(index, listed) && !Gapless(index, listed)
  }

  /** Any number of ticks, with the engine at work around them, and what was archived before each. A
      tick whose listing names segments that exist archives its candidates, unless it is refused.
      The archive stays complete until the first tick whose listing overruns, and is incomplete
      after that one. */
  method Ticks(a: Archiver, rounds: seq<Round>) returns (n: nat, ghost indexed: seq<map<nat, IndexEntry>>)
    requires a.Valid()
    modifies a
    ensures n <= |rounds| && SealedKept(old(a.history), old(a.active), a.history, a.active)
    ensures |indexed| == n + 1 && indexed[0] == old(a.index)
    ensures if n == |rounds| then a.Valid() && indexed[n] == a.index
            else !a.Valid() && a.Shaped() && Overruns(indexed[n], rounds[n].listed)
    ensures forall i :: 0 <= i < n && (forall id :: id in rounds[i].listed ==> 1 <= id <= old(a.active)) ==>
              indexed[i + 1].Keys == if Refuses(indexed[i], rounds[i].listed) then indexed[i].Keys
                                     else indexed[i].Keys + Candidates(rounds[i].listed)
  {
    hide Chained, Reaches, SealedKept, LocalOf, ArchivedOf, MaxId, Candidates, Refuses, Gapless, Vouched, Overruns,
         Moves;
    n := 0;
    indexed := [a.index];
    assert SealedKept(a.history, a.active, a.history, a.active) by { a.StillSealed(); }
    while n < |rounds|
      invariant n <= |rounds| && a.Valid() && SealedKept(old(a.history), old(a.active), a.history, a.active)
      invariant |indexed| == n + 1 && indexed[0] == old(a.index) && indexed[n] == a.index
      invariant forall i :: 0 <= i < n && (forall id :: id in rounds[i].listed ==> 1 <= id <= old(a.active)) ==>
                  indexed[i + 1].Keys == if Refuses(indexed[i], rounds[i].listed) then indexed[i].Keys
                                         else indexed[i].Keys + Candidates(rounds[i].listed)
    {
      var round := rounds[n];
      ghost var h, active := a.history, a.active;
      ghost var _ := a.Run(round.before);
      SealedTrans(old(a.history), old(a.active), h, active, a.history, a.active);
      ActiveGrows(old(a.history), old(a.active), a.history, a.active);
      h, active := a.history, a.active;
      var inside := forall id | id in round.listed :: 1 <= id <= a.active;
      if inside {
        var complete := a.TickOnce(round.listed, round.others, round.later);
        SealedTrans(old(a.history), old(a.active), h, active, a.history, a.active);
        if !complete {
          return;
        }
      }
      n, indexed := n + 1, indexed + [a.index];
    }
  }

  lemma ActiveGrows(h: map<nat, Segment>, a: nat, h': map<nat, Segment>, a': nat)
    requires SealedKept(h, a, h', a')
    ensures a <= a'
  {
  }

  /** A listing taken at one instant is never refused and leaves nothing out. */
  lemma AtomicListing(local: map<nat, Segment>, lowest: nat, active: nat, h: map<nat, Segment>,
                      index: map<nat, IndexEntry>)
    requires LocalOf(local, lowest, active, h)
    requires (forall id :: id in index ==> 1 <= id < active) && forall id: nat :: 1 <= id < lowest ==> id in index
    ensures !Refuses(index, local.Keys) && Gapless(index, local.Keys)
    ensures MaxId(index.Keys + Candidates(local.Keys)) == active - 1
  {
    ListedLocal(local, lowest, active, h);
    var archived := index.Keys + Candidates(local.Keys);
    if active > 1 {
      assert active - 1 in archived;
      assert MaxId(archived) in archived;
    } else {
      assert archived == {};
    }
  }

  /** The index reaches the listing's highest segment: it belongs to another log. */
  predicate Refuses(index: map<nat, IndexEntry>, listed: set<nat>) {
    index != map[] && MaxId(index.Keys) >= MaxId(listed)
  }

  /** Once the candidates are copied, no id below the highest archived one is missing. */
  ghost predicate Gapless(index: map<nat, IndexEntry>, listed: set<nat>) {
    var archived := index.Keys + Candidates(listed);
    forall id: nat :: 1 <= id <= MaxId(archived) ==> id in archived
  }

  /** What a directory scan may return while segments come and go: a file that was there all
      along is listed, one that came or went meanwhile may be. */
  ghost predicate ScanOf(listed: set<nat>, lowest: nat, active: nat, lowest': nat, active': nat) {
    && (forall id: nat :: lowest' <= id <= active ==> id in listed)
    && (forall id :: id in listed ==> lowest <= id <= active')
  }

  /** Deletions during the scan do no harm; a segment created during it does exactly when it is
      missed and a later candidate is seen. */
  lemma ScanExactly(listed: set<nat>, lowest: nat, active: nat, lowest': nat, active': nat, index: map<nat, IndexEntry>)
    requires ScanOf(listed, lowest, active, lowest', active') && 1 <= lowest <= lowest' <= active' && active <= active'
    requires (forall id: nat :: 1 <= id < lowest' ==> id in index) && forall id :: id in index ==> 1 <= id < active
    ensures Gapless(index, listed) <==> forall id: nat :: active < id < MaxId(Candidates(listed)) ==> id in listed
  {
    var candidates := Candidates(listed);
    var archived := index.Keys + candidates;
    var top, last := MaxId(archived), MaxId(candidates);
    if forall id: nat :: active < id < last ==> id in listed {
      forall id: nat | 1 <= id <= top ensures id in archived {
        if lowest' <= id <= active {
          assert active in listed && id in listed;
        }
      }
    }
    if Gapless(index, listed) {
      forall id: nat | active < id < last ensures id in listed {
        assert last in archived;
        assert id in archived;
      }
    }
  }

  /** One record in segment 2, and three sealed segments. */
  ghost predicate ThreeSealed(h: map<nat, Segment>, active: nat, ops: seq<Operation>) {
    && active >= 4 && Ids(h.Keys, 1, active)
    && h[1] == Segment(1, []) && h[2] == Segment(1, [Record(1, ops)]) && h[3] == Segment(2, [])
  }

  lemma ThreeKept(h: map<nat, Segment>, active: nat, h': map<nat, Segment>, active': nat, ops: seq<Operation>)
    requires ThreeSealed(h, active, ops) && SealedKept(h, active, h', active')
    ensures ThreeSealed(h', active', ops)
  {
  }

  /** Segments 2 to 4 are created during a scan that lists 1, 3 and 4. The tick then lets the
      next checkpoint delete segment 2, and its record is in no segment and in no copy. */
  method ListingHole(digest: Segment -> nat, size: Segment -> nat, ops: seq<Operation>) returns (a: Archiver)
    requires ops != []
    ensures fresh(a) && a.Shaped() && 1 <= a.Logged() && !a.InLocal(1) && !a.InArchive(1)
  {
    hide Chained, Reaches, SealedKept, ArchivedOf, Ids, MaxId, Candidates;
    a := new Archiver(digest, size);
    CreateThree(a, ops);
    assert ScanOf({1, 3, 4}, 1, 1, a.lowest, a.active);
    ghost var h, active := a.history, a.active;
    HoleCandidates();
    a.Tick({1, 3, 4}, _ => [], []);
    ThreeKept(h, active, a.history, a.active, ops);
    h, active := a.history, a.active;
    assert a.index.Keys == {1, 3};
    assert 2 !in a.index.Keys;
    a.Checkpoint(Some(3));
    ThreeKept(h, active, a.history, a.active, ops);
    Gone(a, ops);
  }

  method CreateThree(a: Archiver, ops: seq<Operation>)
    requires a.Valid() && a.history == map[1 := Segment(1, [])] && a.active == a.lowest == 1
    modifies a`local, a`history, a`active
    ensures a.Valid() && ThreeSealed(a.history, a.active, ops) && a.active == 4
  {
    hide Chained, Reaches, ArchivedOf, SealedKept;
    a.RotateSegment();
    assert a.history[1] == Segment(1, []);
    assert a.local[2] == Segment(1, []);
    a.Append(ops);
    a.RotateSegment();
    a.RotateSegment();
  }

  lemma HoleCandidates()
    ensures MaxId({1, 3, 4}) == 4 && Candidates({1, 3, 4}) == {1, 3} && MaxId({1, 3}) == 3
  {
    assert 4 in {1, 3, 4} && MaxId({1, 3, 4}) in {1, 3, 4};
    assert 3 in {1, 3} && MaxId({1, 3}) in {1, 3};
  }

  lemma Gone(a: Archiver, ops: seq<Operation>)
    requires a.Shaped() && ThreeSealed(a.history, a.active, ops) && a.lowest > 3 && a.index.Keys == {1, 3}
    ensures 1 <= a.Logged() && !a.InLocal(1) && !a.InArchive(1)
  {
    hide Reaches, Numbered;
    forall id: nat | 4 <= id <= a.active ensures a.history[id].first >= 2 {
      ChainOrdered(a.history, a.active, 3, id);
    }
    forall id | id in a.index ensures id == 1 || id == 3 {
      assert id in a.index.Keys;
    }
  }

  function Finished(done: Result<nat, ArchiveError>, watermark: nat): Result<nat, ArchiveError> {
    match done
    case Ok(_) => Ok(watermark)
    case Err(e) => Err(e)
  }

  // ----- Facts about listings and deletions ---------------------------------

  /** Two LSN ranges share a record. */
  predicate Overlaps(e: IndexEntry, s: Segment) {
    e.first <= e.last && s.first <= LastLsn(s) && s.first <= e.last && e.first <= LastLsn(s)
  }

  /** The first record contradicts the header. */
  predicate Splice(s: Segment) {
    s.records != [] && s.records[0].lsn != s.first
  }

  method Least(ids: set<nat>) returns (r: nat)
    requires ids != {}
    ensures r in ids && forall id :: id in ids ==> r <= id
  {
    r :| r in ids;
    var left := ids - {r};
    while left != {}
      invariant r in ids && left <= ids && forall id :: id in ids && id !in left ==> r <= id
      decreases |left|
    {
      var x :| x in left;
      if x < r {
        r := x;
      }
      left := left - {x};
    }
  }

  lemma SealedTrans(h: map<nat, Segment>, a: nat, h1: map<nat, Segment>, a1: nat, h2: map<nat, Segment>, a2: nat)
    requires SealedKept(h, a, h1, a1) && SealedKept(h1, a1, h2, a2)
    ensures SealedKept(h, a, h2, a2)
  {
  }

  lemma SealedAt(h: map<nat, Segment>, a: nat, h': map<nat, Segment>, a': nat, id: nat)
    requires SealedKept(h, a, h', a') && 1 <= id < a
    ensures id < a' && id in h && id in h' && h'[id] == h[id]
  {
  }

  /** A candidate was sealed when listed, and stays sealed. */
  lemma CandidateSealed(h: map<nat, Segment>, active: nat, listed: set<nat>, id: nat, h': map<nat, Segment>,
                        active': nat)
    requires id in Candidates(listed) && SealedKept(h, active, h', active')
    requires forall i :: i in listed ==>
               1 <= i <= active
    ensures 1 <= id < active'
  {
    assert MaxId(listed) in listed;
  }

  lemma IndexGrows(before: set<nat>, candidates: set<nat>, left: set<nat>, id: nat, after: set<nat>)
    requires id in left && left <= candidates && after == before + (candidates - left) + {id}
    ensures after == before + (candidates - (left - {id}))
  {
  }

  lemma AllNamed(local: map<nat, Segment>, lowest: nat, active: nat, h: map<nat, Segment>, index: map<nat, IndexEntry>,
                 through: nat)
    requires LocalOf(local, lowest, active, h) && forall j: nat :: lowest <= j <= active && j <= through ==> j in index
    ensures forall id :: id in local && id <= through ==> id in index
  {
  }

  lemma DeletedIs(local: map<nat, Segment>, lowest: nat, local': map<nat, Segment>, lowest': nat, active: nat,
                  h: map<nat, Segment>,
                  through: nat, end: nat, manifest: nat)
    requires LocalOf(local, lowest, active, h) && LocalOf(local', lowest', active, h) && lowest <= end <= active
    requires lowest' == if end <= lowest || through < lowest then lowest else if end - 1 < through then end
             else through + 1
    requires forall id: nat :: lowest <= id < end ==> CoveredBy(h, id, manifest)
    requires forall id: nat :: end <= id ==> !CoveredBy(h, id, manifest)
    ensures forall id :: id in local && id !in local' <==> id in local && id <= through && CoveredBy(h, id, manifest)
  {
  }

  lemma InLocalIs(local: map<nat, Segment>, lowest: nat, active: nat, h: map<nat, Segment>, id: nat)
    requires LocalOf(local, lowest, active, h)
    ensures id in local <==> lowest <= id <= active
    ensures id in local ==> id in h && local[id] == h[id]
  {
  }

  /** The segment is sealed, and every record of it is at or below the manifest LSN. */
  ghost predicate CoveredBy(h: map<nat, Segment>, id: nat, manifest: nat) {
    id + 1 in h && h[id + 1].first <= manifest + 1
  }

  /** A sealed segment is covered exactly when its last LSN is at or below the manifest's. */
  lemma CoveredMeans(h: map<nat, Segment>, active: nat, manifest: nat)
    requires Chained(h, active)
    ensures forall id :: 1 <= id <= active ==>
              (CoveredBy(h, id, manifest) <==> id < active && h[id].first + |h[id].records| <= manifest + 1)
  {
    hide Numbered;
    forall id: nat | 1 <= id < active ensures h[id + 1].first == h[id].first + |h[id].records| {
      assert Follows(h[id], h[id + 1]);
    }
  }

  lemma DeletedCovered(local: map<nat, Segment>, lowest: nat, local': map<nat, Segment>, active: nat,
                       h: map<nat, Segment>, through: nat, manifest: nat)
    requires Chained(h, active) && LocalOf(local, lowest, active, h)
    requires forall id :: id in local && id !in local' <==> id in local && id <= through && CoveredBy(h, id, manifest)
    ensures forall id :: id in local && id !in local' <==>
              && id in local && id <= through && id < active && id in h
              && h[id].first + |h[id].records| <= manifest + 1
  {
    hide Chained, CoveredBy;
    CoveredMeans(h, active, manifest);
  }

  lemma LocalIds(local: map<nat, Segment>, lowest: nat, active: nat, h: map<nat, Segment>)
    requires LocalOf(local, lowest, active, h)
    ensures 1 <= lowest <= active && active in h && forall id: nat :: id in local <==> lowest <= id <= active
  {
    InLocalIs(local, lowest, active, h, active);
    forall id: nat ensures id in local <==> lowest <= id <= active { InLocalIs(local, lowest, active, h, id); }
  }

  lemma SameLowest(local: map<nat, Segment>, a: nat, b: nat, active: nat)
    requires a <= active && b <= active
    requires forall id: nat :: id in local <==> a <= id <= active
    requires forall id: nat :: id in local <==> b <= id <= active
    ensures a == b
  {
    assert a in local && b in local;
  }

  lemma BeyondCovered(h: map<nat, Segment>, active: nat, end: nat, manifest: nat)
    requires Chained(h, active) && 1 <= end <= active && (end < active ==> h[end + 1].first > manifest + 1)
    ensures forall id: nat :: end <= id ==> !CoveredBy(h, id, manifest)
  {
    forall id: nat | end <= id ensures !CoveredBy(h, id, manifest) {
      if end < id < active { ChainOrdered(h, active, end + 1, id + 1); }
    }
  }

  lemma AtMostLogged(h: map<nat, Segment>, lowest: nat, active: nat)
    requires Chained(h, active) && 1 <= lowest <= active
    ensures h[lowest].first <= h[active].first
  {
    if lowest < active { ChainOrdered(h, active, lowest, active); }
  }

  lemma SuccessorBelow(h: map<nat, Segment>, active: nat, id: nat)
    requires Chained(h, active) && 1 <= id < active
    ensures h[id + 1].first <= h[active].first
  {
    AtMostLogged(h, id + 1, active);
  }

  lemma ListedLocal(local: map<nat, Segment>, lowest: nat, active: nat, h: map<nat, Segment>)
    requires LocalOf(local, lowest, active, h)
    ensures MaxId(local.Keys) == active
    ensures forall id: nat :: id in Candidates(local.Keys) <==> lowest <= id < active
  {
    assert active in local.Keys && MaxId(local.Keys) in local.Keys;
  }

  /** The returned watermark vouches for everything at or below it exactly when nothing below
      it was left out. */
  lemma VouchesExactly(listed: set<nat>, before: map<nat, IndexEntry>, after: map<nat, IndexEntry>, lowest: nat)
    requires after.Keys == before.Keys + Candidates(listed) && forall id: nat :: 1 <= id < lowest ==> id in after
    ensures Vouched(after, lowest, MaxId(after.Keys)) <==> Gapless(before, listed)
  {
    hide MaxId, Candidates;
    forall id: nat ensures id in after <==> id in before.Keys + Candidates(listed) {
      assert id in after <==> id in after.Keys;
    }
  }
}
