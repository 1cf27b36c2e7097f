/** Go's ordering of strings: bytewise lexicographic comparison. */
module ByteOrder {
  import opened Types

  /** a < b: at the first position where they differ a has the smaller
      byte, or a is a proper prefix of b. */
  predicate Less(a: Bytes, b: Bytes)
    decreases |a|
  {
    if a == [] then b != []
    else if b == [] then false
    else if a[0] != b[0] then a[0] < b[0]
    else Less(a[1..], b[1..])
  }

  /** a <= b. */
  predicate LessEq(a: Bytes, b: Bytes)
  {
    !Less(b, a)
  }

  lemma {:induction false} LessIrreflexive(a: Bytes)
    ensures !Less(a, a)
    decreases |a|
  {
    if a != [] {
      LessIrreflexive(a[1..]);
    }
  }

  lemma {:induction false} LessTransitive(a: Bytes, b: Bytes, c: Bytes)
    requires Less(a, b) && Less(b, c)
    ensures Less(a, c)
    decreases |a|
  {
    if a != [] && a[0] == b[0] && b[0] == c[0] {
      LessTransitive(a[1..], b[1..], c[1..]);
    }
  }

  /** Any two strings are equal or ordered one way or the other. */
  lemma {:induction false} LessTotal(a: Bytes, b: Bytes)
    ensures a == b || Less(a, b) || Less(b, a)
    decreases |a|
  {
    if a != [] && b != [] && a[0] == b[0] {
      LessTotal(a[1..], b[1..]);
      if a[1..] == b[1..] {
        assert a == [a[0]] + a[1..] && b == [b[0]] + b[1..];
      }
    }
  }

  lemma {:induction false} LessAsymmetric(a: Bytes, b: Bytes)
    requires Less(a, b)
    ensures !Less(b, a)
    decreases |a|
  {
    if a != [] && b != [] && a[0] == b[0] {
      LessAsymmetric(a[1..], b[1..]);
    }
  }

  /** The definition of string comparison in terms of positions: a < b
      exactly when they share a prefix of some length i after which a
      ends while b goes on, or both go on and a's next byte is smaller. */
  predicate DiffersAt(a: Bytes, b: Bytes, i: nat)
  {
    && i <= |a| && i <= |b| && a[..i] == b[..i]
    && ((i == |a| && i < |b|) || (i < |a| && i < |b| && a[i] < b[i]))
  }

  lemma {:induction false} LessMeansDiffersAt(a: Bytes, b: Bytes)
    ensures Less(a, b) <==> exists i: nat :: DiffersAt(a, b, i)
    decreases |a|
  {
    if a == [] || b == [] {
      if Less(a, b) {
        assert DiffersAt(a, b, 0);
      }
    } else if a[0] != b[0] {
      if Less(a, b) {
        assert DiffersAt(a, b, 0);
      }
      forall i: nat | DiffersAt(a, b, i)
        ensures Less(a, b)
      {
        if i > 0 {
          assert a[..i][0] == b[..i][0];
        }
      }
    } else {
      LessMeansDiffersAt(a[1..], b[1..]);
      if Less(a, b) {
        var i: nat :| DiffersAt(a[1..], b[1..], i);
        assert a[..i + 1] == [a[0]] + a[1..][..i];
        assert b[..i + 1] == [b[0]] + b[1..][..i];
        assert DiffersAt(a, b, i + 1);
      }
      forall i: nat | DiffersAt(a, b, i)
        ensures Less(a, b)
      {
        assert i > 0;
        assert a[1..][..i - 1] == a[..i][1..];
        assert b[1..][..i - 1] == b[..i][1..];
        assert DiffersAt(a[1..], b[1..], i - 1);
      }
    }
  }

  /** <= is transitive. */
  lemma LessEqTransitive(a: Bytes, b: Bytes, c: Bytes)
    requires LessEq(a, b) && LessEq(b, c)
    ensures LessEq(a, c)
  {
    if Less(c, a) {
      LessTotal(a, b);
      LessTotal(b, c);
      if Less(a, b) {
        LessTransitive(c, a, b);
      } else if Less(b, c) {
        LessTransitive(b, c, a);
      }
    }
  }

  /** x <= y < z gives x < z, and x < y <= z gives x < z. */
  lemma LessEqLess(x: Bytes, y: Bytes, z: Bytes)
    requires (LessEq(x, y) && Less(y, z)) || (Less(x, y) && LessEq(y, z))
    ensures Less(x, z)
  {
    LessTotal(x, y);
    LessTotal(y, z);
    if Less(x, y) && Less(y, z) {
      LessTransitive(x, y, z);
    }
  }
}
