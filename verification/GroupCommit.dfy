/** Group commit as interleaved steps: appends, the publication of their LSNs, flushes that
    run beside later appends, and segment rotation. */
module GroupCommit {
  import opened Results

  /** A flush in progress: the caller's LSN, the LSN it will report durable, and the last
      record its file held when it began. */
  datatype Flight = Flight(wanted: nat, covered: nat, through: nat)

  /** What a caller that asks for durability finds: it is done, its flush began, or another
      caller's flush is in progress and it waits. */
  datatype Barrier = Done | Started | Waiting

  datatype WalStep =
    | Assign
    | Write
    | Publish(lsn: nat)
    | FlushStart(wanted: nat)
    | FlushEnd(ok: bool)
    | Rotate(ok: bool)

  ghost predicate Upto(s: set<nat>, n: nat) {
    forall l: nat :: 0 < l <= n ==> l in s
  }

  /** The records after `from` through `to`. */
  ghost function Span(from: nat, last: nat): (s: set<nat>)
    ensures forall l :: l in s <==> from < l <= last
  {
    if last <= from then {} else Span(from, last - 1) + {last}
  }

  class Wal {
    /** LSNs handed out; records past `written` still wait in memory for a drain. */
    var issued: nat
    /** The last record handed to the kernel, in whichever segment. */
    var written: nat
    /** The last record of the sealed segments. */
    var sealedThrough: nat
    var appendedLsn: nat
    var syncedLsn: nat
    /** Records written whose append has not published its LSN yet. */
    var unpublished: set<nat>
    var flight: Option<Flight>
    /** Records an `fdatasync` has made durable. */
    ghost var durable: set<nat>
    /** LSNs a barrier was acknowledged for whose records were written when their flush began. */
    ghost var acknowledged: set<nat>

    ghost predicate Valid()
      reads this
    {
      && syncedLsn <= appendedLsn <= written <= issued && sealedThrough <= written
      && (forall l :: l in unpublished ==> 0 < l <= written)
      && (forall l :: l in durable ==> 0 < l <= written)
      && Upto(durable, syncedLsn) && Upto(durable, sealedThrough)
      && (forall l :: l in durable ==> Upto(durable, l))
      && (flight.Some? ==>
             flight.value.covered <= flight.value.through <= written && flight.value.covered <= appendedLsn &&
             sealedThrough <= flight.value.through && flight.value.wanted > 0 &&
             forall l :: l in durable ==> l <= flight.value.through)
      && acknowledged <= durable
    }

    constructor ()
      ensures Valid() && written == 0 && acknowledged == {}
    {
      issued, written, sealedThrough, appendedLsn, syncedLsn := 0, 0, 0, 0, 0;
      unpublished, flight, durable, acknowledged := {}, None, {}, {};
    }

    /** A commit takes the next LSN. */
    method AssignLsn() returns (lsn: nat)
      requires Valid()
      modifies this`issued
      ensures Valid() && lsn == issued == old(issued) + 1
    {
      issued := issued + 1;
      return issued;
    }

    /** The oldest record still in memory goes to the active segment under its own LSN. */
    method WriteRecord()
      requires Valid() && written < issued
      modifies this`written, this`unpublished
      ensures Valid() && written == old(written) + 1 && unpublished == old(unpublished) + {written}
    {
      written := written + 1;
      unpublished := unpublished + {written};
    }

    /** The append that wrote `lsn` announces it; announcements may come out of order. */
    method PublishLsn(lsn: nat)
      requires Valid() && lsn in unpublished
      modifies this`appendedLsn, this`unpublished
      ensures Valid() && unpublished == old(unpublished) - {lsn}
      ensures appendedLsn == if old(appendedLsn) < lsn then lsn else old(appendedLsn)
    {
      unpublished := unpublished - {lsn};
      if appendedLsn < lsn {
        appendedLsn := lsn;
      }
    }

    /** Asks for durability through `n`: done at once when a finished flush covers it, even while
        another is in progress, else a flush begins as soon as none is. The flush reports what
        was published before it began. */
    method SyncThrough(n: nat) returns (b: Barrier)
      requires Valid() && n > 0
      modifies this`flight, this`acknowledged
      ensures Valid() && b == if syncedLsn >= n then Done else if old(flight).Some? then Waiting else Started
      ensures b.Done? ==> Upto(durable, n) && acknowledged == old(acknowledged) + {n}
      ensures !b.Done? ==> acknowledged == old(acknowledged)
      ensures flight == if b.Started? then Some(Flight(n, appendedLsn, written)) else old(flight)
    {
      if syncedLsn >= n {
        acknowledged := acknowledged + {n};
        return Done;
      }
      if flight.Some? {
        return Waiting;
      }
      flight := Some(Flight(n, appendedLsn, written));
      return Started;
    }

    /** The flush returns, and its caller is told so whether or not it covered the caller's LSN. It
        did exactly when the record had been written when the flush began, as is true of every
        published LSN; a failed flush acknowledges nothing. */
    method FinishFlush(ok: bool) returns (acked: bool)
      requires Valid() && flight.Some?
      modifies this`flight, this`syncedLsn, this`durable, this`acknowledged
      ensures Valid() && flight.None? && old(durable) <= durable
      ensures acked == ok
      ensures ok ==>
                (Upto(durable, old(flight).value.wanted) <==> old(flight).value.wanted <= old(flight).value.through)
      ensures ok ==>
                acknowledged == if old(flight).value.wanted <= old(flight).value.through
                then old(acknowledged) + {old(flight).value.wanted} else old(acknowledged)
      ensures ok ==>
                syncedLsn == if old(syncedLsn) < old(flight).value.covered then old(flight).value.covered
                else old(syncedLsn)
      ensures !ok ==> durable == old(durable) && syncedLsn == old(syncedLsn) && acknowledged == old(acknowledged)
    {
      var f := flight.value;
      flight := None;
      acked := ok;
      if ok {
        durable := durable + Span(sealedThrough, f.through);
        Covered(old(durable), durable, sealedThrough, f.through);
        if syncedLsn < f.covered {
          syncedLsn := f.covered;
        }
        if f.wanted <= f.through {
          acknowledged := acknowledged + {f.wanted};
        } else {
          assert f.wanted !in durable;
        }
      }
    }

    /** Rotation holds both locks: it flushes the outgoing segment, then switches files. */
    method RotateSegment(ok: bool)
      requires Valid() && flight.None?
      modifies this`syncedLsn, this`durable, this`sealedThrough
      ensures Valid() && old(durable) <= durable
      ensures ok ==> sealedThrough == written && Upto(durable, written)
      ensures !ok ==> sealedThrough == old(sealedThrough)
      ensures syncedLsn == if ok && old(syncedLsn) < appendedLsn then appendedLsn else old(syncedLsn)
    {
      if ok {
        durable := durable + Span(sealedThrough, written);
        Covered(old(durable), durable, sealedThrough, written);
        if syncedLsn < appendedLsn {
          syncedLsn := appendedLsn;
        }
        sealedThrough := written;
      }
    }

    ghost function Now(): Moment
      reads this
    {
      Moment(issued, written, sealedThrough, appendedLsn, syncedLsn, unpublished, flight)
    }

    /** Takes one step; a caller that asks for durability gets its answer. */
    method Take(step: WalStep) returns (answer: Option<Barrier>)
      requires Valid()
      modifies this
      ensures Valid() && old(acknowledged) <= acknowledged && old(durable) <= durable
      ensures Now() == Moved(old(Now()), step) && answer == Answer(old(Now()), step)
      ensures forall n :: Acked(old(Now()), step, n) ==> n in acknowledged
    {
      answer := None;
      match step
      case Assign =>
        var lsn := AssignLsn();
      case Write =>
        if written < issued { WriteRecord(); }
      case Publish(lsn) =>
        if lsn in unpublished { PublishLsn(lsn); }
      case FlushStart(wanted) =>
        if wanted > 0 {
          var b := SyncThrough(wanted);
          answer := Some(b);
        }
      case FlushEnd(ok) =>
        if flight.Some? { var acked := FinishFlush(ok); }
      case Rotate(ok) =>
        if flight.None? { RotateSegment(ok); }
    }

    /** Whatever the interleaving, what was acknowledged survives a crash: the durable records are a
        prefix that holds every acknowledged LSN. And flushes coalesce: once a flush that began at
        step `i` has ended well at step `j`, every LSN published before it began is answered at once,
        at every later step `k`. */
    method Run(steps: seq<WalStep>) returns (answers: seq<Option<Barrier>>, ghost trace: seq<Moment>)
      requires Valid()
      modifies this
      ensures Valid() && Upto(durable, syncedLsn)
      ensures old(acknowledged) <= acknowledged && forall n :: n in acknowledged ==> Upto(durable, n)
      ensures old(durable) <= durable && forall l :: l in durable ==> Upto(durable, l)
      ensures |answers| == |steps| && |trace| == |steps| + 1 && trace[0] == old(Now()) && trace[|steps|] == Now()
      ensures forall i :: 0 <= i < |steps| ==>
                trace[i + 1] == Moved(trace[i], steps[i]) && answers[i] == Answer(trace[i], steps[i])
      ensures forall i, n :: 0 <= i < |steps| && Acked(trace[i], steps[i], n) ==> n in acknowledged
      ensures forall i, j, k :: 0 <= i < j < k < |steps| && answers[i] == Some(Started) && Ends(steps, i, j) ==>
                steps[k].FlushStart? && 0 < steps[k].wanted <= trace[i].appended ==> answers[k] == Some(Done)
    {
      answers, trace := [], [Now()];
      for i := 0 to |steps|
        invariant Valid() && old(acknowledged) <= acknowledged && old(durable) <= durable
        invariant |answers| == i && |trace| == i + 1 && trace[0] == old(Now()) && trace[i] == Now()
        invariant forall j :: 0 <= j < i ==>
                    trace[j + 1] == Moved(trace[j], steps[j]) && answers[j] == Answer(trace[j], steps[j])
        invariant forall j, n :: 0 <= j < i && Acked(trace[j], steps[j], n) ==> n in acknowledged
      {
        var answer := Take(steps[i]);
        answers, trace := answers + [answer], trace + [Now()];
      }
      Coalesces(trace, steps);
    }
  }

  /** A log between two steps. */
  datatype Moment = Moment(issued: nat, written: nat, sealed: nat, appended: nat, synced: nat, unpublished: set<nat>,
                           flight: Option<Flight>)

  function Later(a: nat, b: nat): nat {
    if a < b then b else a
  }

  /** What a step makes of the log. */
  function Moved(m: Moment, step: WalStep): Moment {
    match step
    case Assign => m.(issued := m.issued + 1)
    case Write =>
      if m.written < m.issued then m.(written := m.written + 1, unpublished := m.unpublished + {m.written + 1}) else m
    case Publish(lsn) =>
      if lsn in m.unpublished then m.(appended := Later(m.appended, lsn), unpublished := m.unpublished - {lsn}) else m
    case FlushStart(wanted) =>
      if wanted == 0 || m.synced >= wanted || m.flight.Some? then m
      else m.(flight := Some(Flight(wanted, m.appended, m.written)))
    case FlushEnd(ok) =>
      if m.flight.None? then m
      else m.(flight := None, synced := if ok then Later(m.synced, m.flight.value.covered) else m.synced)
    case Rotate(ok) =>
      if m.flight.None? && ok then m.(synced := Later(m.synced, m.appended), sealed := m.written) else m
  }

  function Answer(m: Moment, step: WalStep): Option<Barrier> {
    if !step.FlushStart? || step.wanted == 0 then None
    else Some(if m.synced >= step.wanted then Done else if m.flight.Some? then Waiting else Started)
  }

  /** The step tells the caller for `n` that it is durable, whose record was written in time: at once,
      or at the end of its own flush. */
  predicate Acked(m: Moment, step: WalStep, n: nat) {
    || (step == FlushStart(n) && 0 < n <= m.synced)
    || (step == FlushEnd(true) && m.flight.Some? && m.flight.value.wanted == n <= m.flight.value.through)
  }

  ghost predicate Traced(trace: seq<Moment>, steps: seq<WalStep>) {
    |trace| == |steps| + 1 && forall i :: 0 <= i < |steps| ==> trace[i + 1] == Moved(trace[i], steps[i])
  }

  /** Step `j` is the end, and a good one, of the flush in progress after step `i`. */
  predicate Ends(steps: seq<WalStep>, i: nat, j: nat) {
    i < j < |steps| && steps[j] == FlushEnd(true) && forall l :: i < l < j ==> !steps[l].FlushEnd?
  }

  lemma {:induction false} SyncedGrows(trace: seq<Moment>, steps: seq<WalStep>, a: nat, b: nat)
    requires Traced(trace, steps) && a <= b <= |steps|
    ensures trace[a].synced <= trace[b].synced
    decreases b
  {
    if a == b {
    } else {
      SyncedGrows(trace, steps, a, b - 1);
      assert trace[b - 1 + 1] == Moved(trace[b - 1], steps[b - 1]);
    }
  }

  /** A flush stays in progress until it ends. */
  lemma {:induction false} FlightLasts(trace: seq<Moment>, steps: seq<WalStep>, i: nat, j: nat)
    requires Traced(trace, steps) && i < j < |steps|
    requires Answer(trace[i], steps[i]) == Some(Started) && forall l :: i < l < j ==> !steps[l].FlushEnd?
    ensures trace[j].flight.Some? && trace[j].flight.value.covered == trace[i].appended
    decreases j
  {
    assert trace[j - 1 + 1] == Moved(trace[j - 1], steps[j - 1]);
    if j - 1 == i {
    } else {
      FlightLasts(trace, steps, i, j - 1);
    }
  }

  lemma Coalesces(trace: seq<Moment>, steps: seq<WalStep>)
    requires Traced(trace, steps)
    ensures forall i, j, k ::
              0 <= i < j < k < |steps| && Answer(trace[i], steps[i]) == Some(Started) && Ends(steps, i, j) ==>
                steps[k].FlushStart? && 0 < steps[k].wanted <= trace[i].appended ==>
                  Answer(trace[k], steps[k]) == Some(Done)
  {
    forall i, j, k |
      && 0 <= i < j < k < |steps| && Answer(trace[i], steps[i]) == Some(Started) && Ends(steps, i, j)
      && steps[k].FlushStart? && 0 < steps[k].wanted <= trace[i].appended
      ensures Answer(trace[k], steps[k]) == Some(Done)
    {
      FlightLasts(trace, steps, i, j);
      assert trace[j + 1] == Moved(trace[j], steps[j]);
      SyncedGrows(trace, steps, j + 1, k);
    }
  }

  /** Adding everything between a durable prefix and `to` makes a longer prefix. */
  lemma Covered(before: set<nat>, after: set<nat>, from: nat, to: nat)
    requires Upto(before, from) && (forall l :: l in before ==> l > 0 && Upto(before, l))
    requires after == before + Span(from, to)
    ensures Upto(after, to) && forall l :: l in after ==> Upto(after, l)
  {
  }
}
