/** Byte-string keys, their lexicographic order, and key intervals.

    Every ordered structure of the engine (pages, buffers, logs, indexes) compares
    keys as unsigned byte strings, so the order is defined once here. */
module Keys {
  import opened Results

  type Byte = b: int | 0 <= b < 256
  type Key = seq<Byte>
  type Value = seq<Byte>

  const MAX_KEY_SIZE := 65536
  const MAX_VALUE_SIZE := 16777216

  /** Strict lexicographic order on byte strings; a proper prefix sorts first. */
  predicate Less(a: Key, b: Key)
    decreases |a|
  {
    && b != []
    && (a == [] || a[0] < b[0] || (a[0] == b[0] && Less(a[1..], b[1..])))
  }

  predicate AtMost(a: Key, b: Key) {
    !Less(b, a)
  }

  /** Whether `k` lies below an optional exclusive upper bound. */
  predicate Below(k: Key, hi: Option<Key>) {
    hi.None? || Less(k, hi.value)
  }

  /** Whether `k` lies at or above an optional inclusive lower bound. */
  predicate From(k: Key, lo: Option<Key>) {
    lo.None? || AtMost(lo.value, k)
  }

  lemma {:induction false} LessIrreflexive(a: Key)
    ensures !Less(a, a)
    decreases |a|
  {
    if a == [] {
    } else {
      LessIrreflexive(a[1..]);
    }
  }

  lemma {:induction false} LessTotal(a: Key, b: Key)
    ensures Less(a, b) || a == b || Less(b, a)
    decreases |a|
  {
    if a != [] && b != [] && a[0] == b[0] {
      LessTotal(a[1..], b[1..]);
      if a[1..] == b[1..] {
        assert a == [a[0]] + a[1..] && b == [b[0]] + b[1..];
      }
    }
  }

  lemma {:induction false} LessTransitive(a: Key, b: Key, c: Key)
    requires Less(a, b) && Less(b, c)
    ensures Less(a, c)
    decreases |a|
  {
    if a != [] && a[0] == b[0] == c[0] {
      LessTransitive(a[1..], b[1..], c[1..]);
    }
  }

  /** The three laws together, for proofs that compare many keys. */
  lemma KeyOrder()
    ensures forall a: Key :: !Less(a, a)
    ensures forall a: Key, b: Key :: Less(a, b) || a == b || Less(b, a)
    ensures forall a: Key, b: Key, c: Key :: Less(a, b) && Less(b, c) ==> Less(a, c)
  {
    forall a: Key ensures !Less(a, a) { LessIrreflexive(a); }
    forall a: Key, b: Key ensures Less(a, b) || a == b || Less(b, a) { LessTotal(a, b); }
    forall a: Key, b: Key, c: Key | Less(a, b) && Less(b, c) ensures Less(a, c) {
      LessTransitive(a, b, c);
    }
  }

  /** Prepending a common prefix keeps the order, so a keyspace embedded under a
      prefix is ordered exactly like the keys it embeds. */
  lemma {:induction false} LessUnderPrefix(p: Key, a: Key, b: Key)
    ensures Less(p + a, p + b) <==> Less(a, b)
    decreases |p|
  {
    if p == [] {
      assert p + a == a && p + b == b;
    } else {
      assert (p + a)[1..] == p[1..] + a && (p + b)[1..] == p[1..] + b;
      LessUnderPrefix(p[1..], a, b);
    }
  }

  /** The smallest key above every key that carries prefix `p`, if there is one. */
  function PrefixSuccessor(p: Key): Option<Key> {
    if p == [] then None
    else if p[|p| - 1] != 255 then Some(p[..|p| - 1] + [p[|p| - 1] + 1])
    else PrefixSuccessor(p[..|p| - 1])
  }

  lemma {:induction false} PrefixSuccessorFront(x: Byte, q: Key)
    ensures PrefixSuccessor([x] + q) ==
            match PrefixSuccessor(q) {
              case Some(s) => Some([x] + s)
              case None => if x == 255 then None else Some([x + 1])
            }
    decreases |q|
  {
    var p := [x] + q;
    if q == [] {
      assert p[..0] + [x + 1] == [x + 1];
    } else {
      assert p[..|p| - 1] == [x] + q[..|q| - 1];
      if q[|q| - 1] == 255 {
        PrefixSuccessorFront(x, q[..|q| - 1]);
      } else {
        assert [x] + q[..|q| - 1] + [q[|q| - 1] + 1] == [x] + (q[..|q| - 1] + [q[|q| - 1] + 1]);
      }
    }
  }

  /** A key carries prefix `p` exactly when it lies in `[p, successor(p))`. */
  lemma {:induction false} PrefixIsInterval(p: Key, k: Key)
    ensures p <= k <==> AtMost(p, k) && Below(k, PrefixSuccessor(p))
    decreases |p|
  {
    if p == [] {
    } else {
      assert p == [p[0]] + p[1..];
      PrefixSuccessorFront(p[0], p[1..]);
      if k != [] {
        assert k == [k[0]] + k[1..];
        PrefixIsInterval(p[1..], k[1..]);
        assert p <= k <==> p[0] == k[0] && p[1..] <= k[1..];
        match PrefixSuccessor(p[1..])
        case Some(s) => assert ([p[0]] + s)[1..] == s;
        case None =>
          if p[0] != 255 {
            assert [p[0] + 1][1..] == [];
            assert !Less(k[1..], []);
          }
      }
    }
  }

  /** The loop that computes an exclusive range end for a prefix scan. */
  method PrefixEnd(prefix: Key) returns (end: Option<Key>)
    ensures end == PrefixSuccessor(prefix)
  {
    var index := |prefix|;
    assert prefix[..index] == prefix;
    while index > 0
      invariant 0 <= index <= |prefix|
      invariant PrefixSuccessor(prefix) == PrefixSuccessor(prefix[..index])
    {
      var head := prefix[..index];
      assert head[..|head| - 1] == prefix[..index - 1];
      index := index - 1;
      if prefix[index] != 255 {
        return Some(prefix[..index] + [prefix[index] + 1]);
      }
    }
    return None;
  }
}
