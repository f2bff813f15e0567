// The order of strings, by code point as in the source, and the order of keys made of them.
module Order {
  predicate Leq(a: string, b: string) {
    a == "" || (b != "" && (a[0] < b[0] || (a[0] == b[0] && Leq(a[1..], b[1..]))))
  }

  lemma {:induction false} LeqTotal(a: string, b: string)
    ensures Leq(a, b) || Leq(b, a)
    decreases |a|
  {
    if a != "" && b != "" && a[0] == b[0] {
      LeqTotal(a[1..], b[1..]);
    }
  }

  lemma {:induction false} LeqAntisymmetric(a: string, b: string)
    requires Leq(a, b) && Leq(b, a)
    ensures a == b
    decreases |a|
  {
    if a != "" {
      LeqAntisymmetric(a[1..], b[1..]);
      assert a == [a[0]] + a[1..] && b == [b[0]] + b[1..];
    }
  }

  lemma {:induction false} LeqTransitive(a: string, b: string, c: string)
    requires Leq(a, b) && Leq(b, c)
    ensures Leq(a, c)
    decreases |a|
  {
    if a != "" && a[0] == b[0] == c[0] {
      LeqTransitive(a[1..], b[1..], c[1..]);
    }
  }

  predicate Less(a: string, b: string) {
    Leq(a, b) && a != b
  }

  // Strings are ordered by the first character in which they differ, and a prefix comes first.
  ghost predicate DiffersFirst(a: string, b: string, k: nat) {
    && k <= |a| && k < |b| && a[..k] == b[..k]
    && (k == |a| || a[k] < b[k])
  }

  lemma {:induction false} LessAtFirstDifference(a: string, b: string, k: nat)
    requires DiffersFirst(a, b, k)
    ensures Less(a, b)
    decreases k
  {
    if k > 0 {
      assert a[0] == a[..k][0] == b[..k][0] == b[0];
      assert a[1..][..k - 1] == a[..k][1..] && b[1..][..k - 1] == b[..k][1..];
      LessAtFirstDifference(a[1..], b[1..], k - 1);
    }
  }

  lemma {:induction false} FirstDifferenceOf(a: string, b: string) returns (k: nat)
    requires Less(a, b)
    ensures DiffersFirst(a, b, k)
    decreases |a|
  {
    if a == "" || a[0] != b[0] {
      k := 0;
    } else {
      assert a == [a[0]] + a[1..] && b == [b[0]] + b[1..];
      var rest := FirstDifferenceOf(a[1..], b[1..]);
      k := rest + 1;
      assert a[..k] == [a[0]] + a[1..][..rest] && b[..k] == [b[0]] + b[1..][..rest];
    }
  }

  /** The order is the lexicographic one. */
  lemma LessExactly(a: string, b: string)
    ensures Less(a, b) <==> exists k: nat :: DiffersFirst(a, b, k)
  {
    if Less(a, b) {
      var k := FirstDifferenceOf(a, b);
    }
    if k: nat :| DiffersFirst(a, b, k) {
      LessAtFirstDifference(a, b, k);
    }
  }

  // A date and an identifier, compared in this order.
  datatype Key = Key(openedAt: string, id: string)

  predicate KeyLeq(a: Key, b: Key) {
    if a.openedAt == b.openedAt then Leq(a.id, b.id) else Leq(a.openedAt, b.openedAt)
  }

  lemma KeyTotal(a: Key, b: Key)
    ensures KeyLeq(a, b) || KeyLeq(b, a)
  {
    LeqTotal(a.openedAt, b.openedAt);
    LeqTotal(a.id, b.id);
  }

  lemma KeyAntisymmetric(a: Key, b: Key)
    requires KeyLeq(a, b) && KeyLeq(b, a)
    ensures a == b
  {
    if a.openedAt == b.openedAt {
      LeqAntisymmetric(a.id, b.id);
    } else {
      LeqAntisymmetric(a.openedAt, b.openedAt);
    }
  }

  lemma KeyTransitive(a: Key, b: Key, c: Key)
    requires KeyLeq(a, b) && KeyLeq(b, c)
    ensures KeyLeq(a, c)
  {
    if a.openedAt == b.openedAt == c.openedAt {
      LeqTransitive(a.id, b.id, c.id);
    } else {
      if a.openedAt != b.openedAt && b.openedAt != c.openedAt {
        LeqTransitive(a.openedAt, b.openedAt, c.openedAt);
      }
      if a.openedAt == c.openedAt {
        LeqAntisymmetric(a.openedAt, b.openedAt);
      }
    }
  }

  // The earlier date comes first, and on one date the smaller identifier.
  ghost predicate Older(a: Key, b: Key) {
    (exists k: nat :: DiffersFirst(a.openedAt, b.openedAt, k)) ||
    (a.openedAt == b.openedAt && exists k: nat :: DiffersFirst(a.id, b.id, k))
  }

  lemma KeyOrderExactly(a: Key, b: Key)
    ensures KeyLeq(a, b) && a != b <==> Older(a, b)
  {
    LessExactly(a.openedAt, b.openedAt);
    LessExactly(a.id, b.id);
  }
}
