/** The retention floor of the change feed over whole runs of commits and trims. A trim may
    name any cursor, one past the newest commit included; the floor can later fall exactly
    when some trim did. */
module Floors {
  import opened ChangeRecords

  /** How many changes each commit published, how far records were dropped, and the floor. */
  datatype Ledger = Ledger(counts: seq<nat>, trimmed: nat, floor: Cursor)

  datatype Move = Commit(count: nat) | Trim(at: Cursor)

  const EMPTY := Ledger([], 0, START)

  /** The last change of commit `s`. */
  function LastChange(counts: seq<nat>, s: nat): Cursor
    requires 0 < s <= |counts| && counts[s - 1] > 0
  {
    Cursor(s, counts[s - 1] - 1)
  }

  predicate Retained(l: Ledger, s: nat) {
    l.trimmed < s <= |l.counts| && l.counts[s - 1] > 0
  }

  predicate Droppable(l: Ledger, c: Cursor, s: nat) {
    Retained(l, s) && NotAfter(LastChange(l.counts, s), c)
  }

  /** The newest commit among the first `n` that a trim at `c` drops. */
  function LastDrop(l: Ledger, c: Cursor, n: nat): (last: nat)
    requires n <= |l.counts|
    ensures last != l.trimmed ==> last <= n && Droppable(l, c, last)
    ensures forall s :: last < s <= n ==> !Droppable(l, c, s)
  {
    if n <= l.trimmed then l.trimmed else if Droppable(l, c, n) then n else LastDrop(l, c, n - 1)
  }

  /** A trim that drops something is itself a commit, and its cursor becomes the floor. */
  function Moved(l: Ledger, move: Move): Ledger {
    match move
    case Commit(count) => l.(counts := l.counts + [count])
    case Trim(c) =>
      var last := LastDrop(l, c, |l.counts|);
      if last == l.trimmed then l else Ledger(l.counts + [0], last, c)
  }

  function Final(l: Ledger, moves: seq<Move>): Ledger {
    if moves == [] then l else Moved(Final(l, moves[..|moves| - 1]), moves[|moves| - 1])
  }

  /** A trim's cursor names nothing past the commit after the trim's own. */
  predicate Timely(l: Ledger, move: Move) {
    move.Trim? ==> NotAfter(move.at, Cursor(|l.counts| + 2, 0))
  }

  predicate Guarded(l: Ledger, moves: seq<Move>) {
    forall i :: 0 <= i < |moves| ==> Timely(Final(l, moves[..i]), moves[i])
  }

  /** No retained commit, and not the next one either, ends below the floor. */
  ghost predicate Safe(l: Ledger) {
    && (forall s: nat :: Retained(l, s) ==> NotAfter(l.floor, LastChange(l.counts, s)))
    && NotAfter(l.floor, Cursor(|l.counts| + 1, 0))
  }

  lemma SafeMove(l: Ledger, move: Move)
    requires Safe(l) && Timely(l, move)
    ensures Safe(Moved(l, move)) && NotAfter(l.floor, Moved(l, move).floor)
  {
    var after := Moved(l, move);
    forall s: nat | Retained(after, s) ensures NotAfter(after.floor, LastChange(after.counts, s)) {
      if s <= |l.counts| {
        assert Retained(l, s);
        if move.Trim? && after != l { assert !Droppable(l, move.at, s); }
      }
    }
    if move.Trim? && after != l {
      assert NotAfter(l.floor, LastChange(l.counts, after.trimmed));
    }
  }

  lemma {:induction false} SafeRun(l: Ledger, moves: seq<Move>)
    requires Safe(l) && Guarded(l, moves)
    ensures Safe(Final(l, moves)) && NotAfter(l.floor, Final(l, moves).floor)
    decreases |moves|
  {
    if moves == [] {
    } else {
      var n := |moves| - 1;
      GuardedHead(l, moves, n);
      SafeRun(l, moves[..n]);
      SafeMove(Final(l, moves[..n]), moves[n]);
    }
  }

  lemma GuardedHead(l: Ledger, moves: seq<Move>, n: nat)
    requires n <= |moves| && Guarded(l, moves)
    ensures Guarded(l, moves[..n])
  {
    hide Final, Timely;
    forall i | 0 <= i < n ensures Timely(Final(l, moves[..n][..i]), moves[..n][i]) {
      assert moves[..n][..i] == moves[..i];
    }
  }

  /** When every trim is timely the floor never falls, from any point of the run to any later one. */
  lemma NeverFalls(l: Ledger, moves: seq<Move>, i: nat, j: nat)
    requires Safe(l) && Guarded(l, moves) && i <= j <= |moves|
    ensures NotAfter(Final(l, moves[..i]).floor, Final(l, moves[..j]).floor)
    decreases j - i
  {
    if i < j {
      NeverFalls(l, moves, i, j - 1);
      GuardedHead(l, moves, j - 1);
      SafeRun(l, moves[..j - 1]);
      FinalNext(l, moves, j - 1);
      SafeMove(Final(l, moves[..j - 1]), moves[j - 1]);
    }
  }

  /** A state is safe exactly when no continuation, however careful its trims, lowers its floor. */
  lemma SafeExactly(l: Ledger)
    requires l.trimmed <= |l.counts|
    ensures Safe(l) <==> forall moves :: Guarded(l, moves) ==> NotAfter(l.floor, Final(l, moves).floor)
  {
    if Safe(l) {
      forall moves | Guarded(l, moves) ensures NotAfter(l.floor, Final(l, moves).floor) {
        SafeRun(l, moves);
      }
    } else {
      var moves := Lowering(l);
    }
  }

  lemma Lowering(l: Ledger) returns (moves: seq<Move>)
    requires l.trimmed <= |l.counts| && !Safe(l)
    ensures Guarded(l, moves) && Before(Final(l, moves).floor, l.floor)
  {
    if s: nat :| Retained(l, s) && Before(LastChange(l.counts, s), l.floor) {
      var c := LastChange(l.counts, s);
      moves := [Trim(c)];
      OneMove(l, Trim(c));
      assert Droppable(l, c, s);
    } else {
      var next := Cursor(|l.counts| + 1, 0);
      moves := [Commit(1), Trim(next)];
      OneMove(l, Commit(1));
      var mid := Moved(l, Commit(1));
      assert moves[..1] == [Commit(1)];
      assert Droppable(mid, next, |mid.counts|);
      assert Final(l, moves) == Moved(mid, Trim(next));
      forall i | 0 <= i < 2 ensures Timely(Final(l, moves[..i]), moves[i]) {
        assert moves[..0] == [];
      }
    }
  }

  lemma OneMove(l: Ledger, move: Move)
    ensures Final(l, [move]) == Moved(l, move) && (Timely(l, move) ==> Guarded(l, [move]))
  {
    assert [move][..0] == [];
  }

  /** The guard is exact: from a safe state, a trim that drops something leaves a safe one
      exactly when it is timely. */
  lemma TimelyExactly(l: Ledger, c: Cursor, s: nat)
    requires Safe(l) && Droppable(l, c, s)
    ensures Safe(Moved(l, Trim(c))) <==> Timely(l, Trim(c))
  {
    if Timely(l, Trim(c)) { SafeMove(l, Trim(c)); }
  }

  /** A trim far past the end, two commits on: the floor falls from 100 to 3. */
  lemma FloorFalls()
    ensures var moves := [Commit(1), Trim(Cursor(100, 0)), Commit(1), Trim(Cursor(3, 0))];
            Final(EMPTY, moves[..2]).floor == Cursor(100, 0) && Final(EMPTY, moves).floor == Cursor(3, 0)
  {
    hide Moved;
    var moves := [Commit(1), Trim(Cursor(100, 0)), Commit(1), Trim(Cursor(3, 0))];
    FallingMoves();
    FinalNext(EMPTY, moves, 0);
    FinalNext(EMPTY, moves, 1);
    FinalNext(EMPTY, moves, 2);
    FinalNext(EMPTY, moves, 3);
    assert moves[..0] == [] && moves[..4] == moves;
  }

  lemma FallingMoves()
    ensures Moved(EMPTY, Commit(1)) == Ledger([1], 0, START)
    ensures Moved(Ledger([1], 0, START), Trim(Cursor(100, 0))) == Ledger([1, 0], 1, Cursor(100, 0))
    ensures Moved(Ledger([1, 0], 1, Cursor(100, 0)), Commit(1)) == Ledger([1, 0, 1], 1, Cursor(100, 0))
    ensures Moved(Ledger([1, 0, 1], 1, Cursor(100, 0)), Trim(Cursor(3, 0))) == Ledger([1, 0, 1, 0], 3, Cursor(3, 0))
  {
    assert Droppable(Ledger([1], 0, START), Cursor(100, 0), 1);
    assert Droppable(Ledger([1, 0, 1], 1, Cursor(100, 0)), Cursor(3, 0), 3);
  }

  lemma FinalNext(l: Ledger, moves: seq<Move>, i: nat)
    requires i < |moves|
    ensures Final(l, moves[..i + 1]) == Moved(Final(l, moves[..i]), moves[i])
  {
    assert moves[..i + 1][..i] == moves[..i];
  }
}
