/** crates/ostrom-core/src/plan.rs, lines 221-254 and 690-765: the order in which
    queued work is dispatched. */
module Ranking {
  import opened Wrappers
  import opened Order

  datatype QueueItem = QueueItem(
    id: string,
    openedAt: string,
    kind: string,
    state: string,
    graphDispatchable: bool,
    unblockingPower: nat,
    itemType: Option<string>)
  {
    predicate Dispatchable() {
      && graphDispatchable
      && kind != "parked"
      && state != "deferred"
      && itemType != Some("pull_request")
      && (kind in ["moved", "stuck"] || (state == "approved" && kind in ["tripwire", "decision"]))
    }
  }

  // ---- The composite rank ----

  // Compared by tier, then position, then the larger power, then age and id.
  datatype Rank = Rank(tier: nat, position: nat, power: nat, key: Key)

  predicate RankLeq(a: Rank, b: Rank) {
    if a.tier != b.tier then a.tier < b.tier
    else if a.position != b.position then a.position < b.position
    else if a.power != b.power then a.power > b.power
    else KeyLeq(a.key, b.key)
  }

  predicate RankLess(a: Rank, b: Rank) {
    RankLeq(a, b) && a != b
  }

  lemma RankTotal(a: Rank, b: Rank)
    ensures RankLeq(a, b) || RankLeq(b, a)
  {
    KeyTotal(a.key, b.key);
  }

  lemma RankAntisymmetric(a: Rank, b: Rank)
    requires RankLeq(a, b) && RankLeq(b, a)
    ensures a == b
  {
    KeyAntisymmetric(a.key, b.key);
  }

  lemma RankTransitive(a: Rank, b: Rank, c: Rank)
    requires RankLeq(a, b) && RankLeq(b, c)
    ensures RankLeq(a, c)
  {
    if a.tier == b.tier == c.tier && a.position == b.position == c.position && a.power == b.power == c.power {
      KeyTransitive(a.key, b.key, c.key);
    }
  }

  function KeyOf(item: QueueItem): Key {
    Key(item.openedAt, item.id)
  }

  // Power and age alone: the order of what nobody ranked.
  function FloorRank(item: QueueItem): Rank {
    Rank(0, 0, item.unblockingPower, KeyOf(item))
  }

  /** Ranked items come first in the order of `ranked`, then the others by power and
      age, and demoted ones last by power and age. */
  function RankOf(item: QueueItem, ranked: seq<string>, demoted: set<string>): Rank {
    if item.id in demoted then Rank(2, 0, item.unblockingPower, KeyOf(item))
    else if item.id in ranked then Rank(0, FirstIndex(ranked, item.id), 0, KeyOf(item))
    else Rank(1, 0, item.unblockingPower, KeyOf(item))
  }

  // ---- Sorting by a key ----

  type RankFn = QueueItem -> Rank

  function Insert(item: QueueItem, sorted: seq<QueueItem>, rank: RankFn): seq<QueueItem> {
    if sorted == [] || !RankLeq(rank(sorted[0]), rank(item)) then [item] + sorted
    else [sorted[0]] + Insert(item, sorted[1..], rank)
  }

  // A stable sort: an item goes after those of equal rank that precede it.
  function Sort(items: seq<QueueItem>, rank: RankFn): seq<QueueItem> {
    if items == [] then []
    else Insert(items[|items| - 1], Sort(items[..|items| - 1], rank), rank)
  }

  ghost predicate Sorted(items: seq<QueueItem>, rank: RankFn) {
    forall i, j :: 0 <= i < j < |items| ==> RankLeq(rank(items[i]), rank(items[j]))
  }

  lemma {:induction false} InsertPermutes(item: QueueItem, sorted: seq<QueueItem>, rank: RankFn)
    ensures multiset(Insert(item, sorted, rank)) == multiset(sorted) + multiset{item}
  {
    if sorted != [] {
      assert sorted == [sorted[0]] + sorted[1..];
      InsertPermutes(item, sorted[1..], rank);
    }
  }

  lemma PrependSorted(head: QueueItem, rest: seq<QueueItem>, rank: RankFn)
    requires Sorted(rest, rank) && forall x :: x in rest ==> RankLeq(rank(head), rank(x))
    ensures Sorted([head] + rest, rank)
  {
  }

  lemma LeqAll(item: QueueItem, sorted: seq<QueueItem>, rank: RankFn)
    requires Sorted(sorted, rank) && sorted != [] && RankLeq(rank(item), rank(sorted[0]))
    ensures forall x :: x in sorted ==> RankLeq(rank(item), rank(x))
  {
    forall j | 0 <= j < |sorted|
      ensures RankLeq(rank(item), rank(sorted[j]))
    {
      if j > 0 {
        RankTransitive(rank(item), rank(sorted[0]), rank(sorted[j]));
      }
    }
  }

  lemma {:induction false} InsertSorts(item: QueueItem, sorted: seq<QueueItem>, rank: RankFn)
    requires Sorted(sorted, rank)
    ensures Sorted(Insert(item, sorted, rank), rank)
  {
    if sorted == [] {
    } else if !RankLeq(rank(sorted[0]), rank(item)) {
      RankTotal(rank(sorted[0]), rank(item));
      LeqAll(item, sorted, rank);
      PrependSorted(item, sorted, rank);
    } else {
      var rest := Insert(item, sorted[1..], rank);
      InsertSorts(item, sorted[1..], rank);
      InsertPermutes(item, sorted[1..], rank);
      forall x | x in rest
        ensures RankLeq(rank(sorted[0]), rank(x))
      {
        assert x in multiset(rest);
      }
      PrependSorted(sorted[0], rest, rank);
    }
  }

  lemma {:induction false} SortSorts(items: seq<QueueItem>, rank: RankFn)
    ensures Sorted(Sort(items, rank), rank)
    ensures multiset(Sort(items, rank)) == multiset(items)
  {
    if items != [] {
      var last := |items| - 1;
      SortSorts(items[..last], rank);
      InsertSorts(items[last], Sort(items[..last], rank), rank);
      InsertPermutes(items[last], Sort(items[..last], rank), rank);
      assert items == items[..last] + [items[last]];
    }
  }

  // ---- What a ranking is ----

  predicate UniqueIds(items: seq<QueueItem>) {
    forall i, j :: 0 <= i < j < |items| ==> items[i].id != items[j].id
  }

  function Filter(items: seq<QueueItem>, keep: QueueItem -> bool): (r: seq<QueueItem>)
    ensures forall x :: x in r <==> x in items && keep(x)
    ensures UniqueIds(items) ==> UniqueIds(r)
  {
    if items == [] then []
    else
      var rest := Filter(items[..|items| - 1], keep);
      var last := items[|items| - 1];
      assert forall x :: x in items <==> x in items[..|items| - 1] || x == last by {
        assert items == items[..|items| - 1] + [last];
      }
      assert UniqueIds(items) ==> forall x :: x in items[..|items| - 1] ==> x.id != last.id;
      if keep(last) then rest + [last] else rest
  }

  function IdsOf(items: seq<QueueItem>): seq<string> {
    seq(|items|, i requires 0 <= i < |items| => items[i].id)
  }

  /** `items` are exactly the dispatchable items of the queue, each once, in strictly increasing
      rank. */
  ghost predicate Ranked(queue: seq<QueueItem>, ranked: seq<string>, demoted: set<string>, items: seq<QueueItem>) {
    && (forall x :: x in items <==> x in queue && x.Dispatchable())
    && StrictlyRanked(ranked, demoted, items)
  }

  ghost predicate StrictlyRanked(ranked: seq<string>, demoted: set<string>, items: seq<QueueItem>) {
    forall i, j :: 0 <= i < j < |items| ==>
      RankLess(RankOf(items[i], ranked, demoted), RankOf(items[j], ranked, demoted))
  }

  lemma HeadIsLeast(ranked: seq<string>, demoted: set<string>, items: seq<QueueItem>, x: QueueItem)
    requires StrictlyRanked(ranked, demoted, items) && x in items
    ensures x == items[0] || RankLess(RankOf(items[0], ranked, demoted), RankOf(x, ranked, demoted))
  {
  }

  // The members fix a strictly ranked sequence.
  lemma {:induction false} StrictOrderIsUnique(ranked: seq<string>, demoted: set<string>, a: seq<QueueItem>, b: seq<QueueItem>)
    requires forall x :: x in a <==> x in b
    requires StrictlyRanked(ranked, demoted, a) && StrictlyRanked(ranked, demoted, b)
    ensures a == b
    decreases |a|
  {
    NonemptyHasMember(a);
    NonemptyHasMember(b);
    if a != [] && b != [] {
      HeadIsLeast(ranked, demoted, a, b[0]);
      HeadIsLeast(ranked, demoted, b, a[0]);
      if a[0] != b[0] {
        RankAntisymmetric(RankOf(a[0], ranked, demoted), RankOf(b[0], ranked, demoted));
      }
      TailMembers(a, b);
      StrictOrderIsUnique(ranked, demoted, a[1..], b[1..]);
      assert a == [a[0]] + a[1..] && b == [b[0]] + b[1..];
    }
  }

  // ---- The two rankings ----

  predicate IsDispatchable(item: QueueItem) {
    item.Dispatchable()
  }

  function IdSet(items: seq<QueueItem>): set<string> {
    set x | x in items :: x.id
  }

  // The ranked ids that may lead: allowed, not demoted, the first of each.
  function Head(ranked: seq<string>, allowed: set<string>, demoted: set<string>): seq<string> {
    if ranked == [] then []
    else
      var before := Head(ranked[..|ranked| - 1], allowed, demoted);
      var id := ranked[|ranked| - 1];
      if id in allowed && id !in before && id !in demoted then before + [id] else before
  }

  function Composed(queue: seq<QueueItem>, ranked: seq<string>, demoted: set<string>): seq<string> {
    var dispatchable := Filter(queue, IsDispatchable);
    var head := Head(ranked, IdSet(dispatchable), demoted);
    head
    + IdsOf(Sort(Filter(dispatchable, (x: QueueItem) => x.id !in head && x.id !in demoted), FloorRank))
    + IdsOf(Sort(Filter(dispatchable, (x: QueueItem) => x.id in demoted), FloorRank))
  }

  method AssembleRanking(queue: seq<QueueItem>, principal: seq<string>, computed: seq<string>, demoted: set<string>)
    returns (result: seq<string>)
    ensures result == Composed(queue, principal + computed, demoted)
  {
    var dispatchable := Filter(queue, IsDispatchable);
    var allowed := IdSet(dispatchable);
    var ranked := principal + computed;
    result := [];
    for k := 0 to |ranked|
      invariant result == Head(ranked[..k], allowed, demoted)
    {
      assert ranked[..k + 1][..k] == ranked[..k];
      if ranked[k] in allowed && ranked[k] !in result && ranked[k] !in demoted {
        result := result + [ranked[k]];
      }
    }
    assert ranked[..|ranked|] == ranked;
    var head := result;
    var remainder := Filter(dispatchable, (x: QueueItem) => x.id !in head && x.id !in demoted);
    result := result + IdsOf(Sort(remainder, FloorRank));
    var tail := Filter(dispatchable, (x: QueueItem) => x.id in demoted);
    result := result + IdsOf(Sort(tail, FloorRank));
  }

  function MechanicalRank(item: QueueItem, principal: seq<string>): Rank {
    if item.id in principal then Rank(0, FirstIndex(principal, item.id), 0, KeyOf(item))
    else Rank(1, 0, item.unblockingPower, KeyOf(item))
  }

  function MechanicalRanking(queue: seq<QueueItem>, principal: seq<string>): seq<string> {
    IdsOf(Sort(Filter(queue, IsDispatchable), (x: QueueItem) => MechanicalRank(x, principal)))
  }

  // ---- Both are the one ranking of their composite rank ----

  lemma {:induction false} HeadFacts(ranked: seq<string>, allowed: set<string>, demoted: set<string>)
    ensures var h := Head(ranked, allowed, demoted);
      && (forall id :: id in h <==> id in ranked && id in allowed && id !in demoted)
      && (forall i, j :: 0 <= i < j < |h| ==> FirstIndex(ranked, h[i]) < FirstIndex(ranked, h[j]))
  {
    if ranked != [] {
      var n := |ranked| - 1;
      HeadFacts(ranked[..n], allowed, demoted);
      assert ranked == ranked[..n] + [ranked[n]];
      var before := Head(ranked[..n], allowed, demoted);
      forall id | id in ranked[..n]
        ensures FirstIndex(ranked, id) == FirstIndex(ranked[..n], id)
      {
      }
    }
  }

  lemma SortedMembers(items: seq<QueueItem>, rank: RankFn)
    requires UniqueIds(items)
    ensures var s := Sort(items, rank);
      && (forall x :: x in s <==> x in items)
      && (forall i, j :: 0 <= i < j < |s| ==> s[i] != s[j] && RankLeq(rank(s[i]), rank(s[j])))
  {
    var s := Sort(items, rank);
    SortSorts(items, rank);
    forall x
      ensures x in s <==> x in items
    {
      assert x in multiset(s) <==> x in multiset(items);
    }
    assert |multiset(s)| == |s| && |multiset(items)| == |items|;
    forall i, j | 0 <= i < j < |s|
      ensures s[i] != s[j]
    {
      if s[i] == s[j] {
        TwiceInMultiset(s, i, j);
        OnceInMultiset(items, s[i]);
      }
    }
  }

  lemma TwiceInMultiset(s: seq<QueueItem>, i: nat, j: nat)
    requires i < j < |s| && s[i] == s[j]
    ensures multiset(s)[s[i]] >= 2
  {
    assert s == s[..i] + [s[i]] + s[i + 1..j] + [s[j]] + s[j + 1..];
  }

  lemma {:induction false} OnceInMultiset(items: seq<QueueItem>, x: QueueItem)
    requires UniqueIds(items)
    ensures multiset(items)[x] <= 1
  {
    if items != [] {
      assert items == [items[0]] + items[1..];
      OnceInMultiset(items[1..], x);
      if x == items[0] {
        assert x !in items[1..];
      }
    }
  }

  lemma SameIdSameItem(queue: seq<QueueItem>, x: QueueItem, y: QueueItem)
    requires UniqueIds(queue) && x in queue && y in queue && x.id == y.id
    ensures x == y
  {
  }

  // The items behind the leading ids.
  ghost function ItemsWith(items: seq<QueueItem>, ids: seq<string>): (r: seq<QueueItem>)
    requires forall id :: id in ids ==> id in IdSet(items)
    ensures |r| == |ids| && forall i :: 0 <= i < |r| ==> r[i] in items && r[i].id == ids[i]
  {
    if ids == [] then []
    else
      assert ids[0] in ids && ids[0] in IdSet(items);
      var x :| x in items && x.id == ids[0];
      [x] + ItemsWith(items, ids[1..])
  }

  lemma ConcatStrictlyRanked(ranked: seq<string>, demoted: set<string>, a: seq<QueueItem>, b: seq<QueueItem>)
    requires StrictlyRanked(ranked, demoted, a) && StrictlyRanked(ranked, demoted, b)
    requires forall x, y :: x in a && y in b ==> RankLess(RankOf(x, ranked, demoted), RankOf(y, ranked, demoted))
    ensures StrictlyRanked(ranked, demoted, a + b)
  {
    var c := a + b;
    forall i, j | 0 <= i < j < |c|
      ensures RankLess(RankOf(c[i], ranked, demoted), RankOf(c[j], ranked, demoted))
    {
      if i < |a| <= j {
        assert c[i] in a && c[j] in b;
      }
    }
  }

  lemma RanksDiffer(items: seq<QueueItem>, x: QueueItem, y: QueueItem, ranked: seq<string>, demoted: set<string>)
    requires UniqueIds(items) && x in items && y in items && x != y
    ensures RankOf(x, ranked, demoted) != RankOf(y, ranked, demoted)
  {
    if x.id == y.id {
      SameIdSameItem(items, x, y);
    }
  }

  // Sorting by any rank that agrees with the composite rank gives strict order.
  lemma SortedIsStrictlyRanked(items: seq<QueueItem>, rank: RankFn, ranked: seq<string>, demoted: set<string>)
    requires UniqueIds(items)
    requires forall x, y :: x in items && y in items && RankLeq(rank(x), rank(y)) ==>
      RankLeq(RankOf(x, ranked, demoted), RankOf(y, ranked, demoted))
    ensures StrictlyRanked(ranked, demoted, Sort(items, rank))
  {
    SortedMembers(items, rank);
    var s := Sort(items, rank);
    forall i, j | 0 <= i < j < |s|
      ensures RankLess(RankOf(s[i], ranked, demoted), RankOf(s[j], ranked, demoted))
    {
      assert s[i] in s && s[j] in s;
      RanksDiffer(items, s[i], s[j], ranked, demoted);
    }
  }

  lemma HeadIsStrictlyRanked(queue: seq<QueueItem>, ranked: seq<string>, demoted: set<string>) returns (items: seq<QueueItem>)
    ensures var dispatchable := Filter(queue, IsDispatchable);
      var head := Head(ranked, IdSet(dispatchable), demoted);
      && IdsOf(items) == head
      && (forall x :: x in items ==> x in dispatchable && x.id in head)
      && (forall id :: id in head ==> exists x :: x in items && x.id == id)
      && StrictlyRanked(ranked, demoted, items)
  {
    var dispatchable := Filter(queue, IsDispatchable);
    var head := Head(ranked, IdSet(dispatchable), demoted);
    HeadFacts(ranked, IdSet(dispatchable), demoted);
    items := ItemsWith(dispatchable, head);
    forall i, j | 0 <= i < j < |items|
      ensures RankLess(RankOf(items[i], ranked, demoted), RankOf(items[j], ranked, demoted))
    {
      assert head[i] in head && head[j] in head;
    }
    forall id | id in head
      ensures exists x :: x in items && x.id == id
    {
      var i :| 0 <= i < |head| && head[i] == id;
      assert items[i] in items;
    }
  }

  lemma IdsOfConcat(a: seq<QueueItem>, b: seq<QueueItem>)
    ensures IdsOf(a + b) == IdsOf(a) + IdsOf(b)
  {
  }

  /** Composing yields each dispatchable item once: ranked ones in the given order
      (principal before computed), then the rest by power and age, demoted ones last. */
  lemma ComposedIsRanked(queue: seq<QueueItem>, ranked: seq<string>, demoted: set<string>) returns (items: seq<QueueItem>)
    requires UniqueIds(queue)
    ensures Ranked(queue, ranked, demoted, items)
    ensures Composed(queue, ranked, demoted) == IdsOf(items)
  {
    var dispatchable := Filter(queue, IsDispatchable);
    var head := Head(ranked, IdSet(dispatchable), demoted);
    HeadFacts(ranked, IdSet(dispatchable), demoted);
    var first := HeadIsStrictlyRanked(queue, ranked, demoted);
    var remainder := Filter(dispatchable, (x: QueueItem) => x.id !in head && x.id !in demoted);
    var tail := Filter(dispatchable, (x: QueueItem) => x.id in demoted);
    forall x | x in remainder
      ensures x.id !in ranked
    {
      assert x.id in IdSet(dispatchable);
    }
    SortedMembers(remainder, FloorRank);
    SortedMembers(tail, FloorRank);
    SortedIsStrictlyRanked(remainder, FloorRank, ranked, demoted);
    SortedIsStrictlyRanked(tail, FloorRank, ranked, demoted);
    var second, third := Sort(remainder, FloorRank), Sort(tail, FloorRank);
    ConcatStrictlyRanked(ranked, demoted, first, second);
    ConcatStrictlyRanked(ranked, demoted, first + second, third);
    items := first + second + third;
    forall x | x in dispatchable
      ensures x in items
    {
      if x.id in head {
        var y :| y in first && y.id == x.id;
        SameIdSameItem(queue, x, y);
      }
    }
    IdsOfConcat(first, second);
    IdsOfConcat(first + second, third);
  }

  lemma MechanicalIsRanked(queue: seq<QueueItem>, principal: seq<string>) returns (items: seq<QueueItem>)
    requires UniqueIds(queue)
    ensures Ranked(queue, principal, {}, items)
    ensures MechanicalRanking(queue, principal) == IdsOf(items)
  {
    var dispatchable := Filter(queue, IsDispatchable);
    var rank := (x: QueueItem) => MechanicalRank(x, principal);
    SortedMembers(dispatchable, rank);
    SortedIsStrictlyRanked(dispatchable, rank, principal, {});
    items := Sort(dispatchable, rank);
  }

  /** With nothing computed and nothing demoted, the composed ranking is the mechanical one,
      though one splices lists and the other sorts once. */
  lemma ComposedEqualsMechanical(queue: seq<QueueItem>, principal: seq<string>)
    requires UniqueIds(queue)
    ensures Composed(queue, principal + [], {}) == MechanicalRanking(queue, principal)
  {
    assert principal + [] == principal;
    var a := ComposedIsRanked(queue, principal, {});
    var b := MechanicalIsRanked(queue, principal);
    StrictOrderIsUnique(principal, {}, a, b);
  }

  // No dispatchable id is lost, invented or repeated.
  lemma ComposedIsPermutation(queue: seq<QueueItem>, ranked: seq<string>, demoted: set<string>)
    requires UniqueIds(queue)
    ensures var r := Composed(queue, ranked, demoted);
      && (forall id :: id in r <==> exists x :: x in queue && x.Dispatchable() && x.id == id)
      && (forall i, j :: 0 <= i < j < |r| ==> r[i] != r[j])
  {
    var items := ComposedIsRanked(queue, ranked, demoted);
    var r := IdsOf(items);
    forall id | exists x :: x in queue && x.Dispatchable() && x.id == id
      ensures id in r
    {
      var x :| x in queue && x.Dispatchable() && x.id == id;
      var i :| 0 <= i < |items| && items[i] == x;
      assert r[i] == id;
    }
    forall i | 0 <= i < |r|
      ensures exists x :: x in queue && x.Dispatchable() && x.id == r[i]
    {
      assert items[i] in items;
    }
    forall i, j | 0 <= i < j < |r|
      ensures r[i] != r[j]
    {
      assert items[i] in items && items[j] in items;
      if r[i] == r[j] {
        SameIdSameItem(queue, items[i], items[j]);
      }
    }
  }

  // ---- Which of two items comes first ----

  // Only moved, stuck and approved work is dispatched, and no pull request and nothing deferred.
  predicate Authorized(x: QueueItem) {
    && x.graphDispatchable && x.state != "deferred" && x.itemType != Some("pull_request")
    && (x.kind in ["moved", "stuck"] || (x.state == "approved" && x.kind in ["tripwire", "decision"]))
  }

  // More work is unblocked by `x`, or as much and it is older.
  ghost predicate Outweighs(x: QueueItem, y: QueueItem) {
    x.unblockingPower > y.unblockingPower || (x.unblockingPower == y.unblockingPower && Older(KeyOf(x), KeyOf(y)))
  }

  // `x` is ranked, and `y` is not ranked up to there.
  ghost predicate RankedFirst(ranked: seq<string>, x: string, y: string) {
    exists k :: 0 <= k < |ranked| && ranked[k] == x && y !in ranked[..k]
  }

  ghost predicate ComesBefore(ranked: seq<string>, demoted: set<string>, x: QueueItem, y: QueueItem) {
    if x.id in demoted || y.id in demoted then
      x.id !in demoted || (y.id in demoted && Outweighs(x, y))
    else if x.id in ranked || y.id in ranked then RankedFirst(ranked, x.id, y.id)
    else Outweighs(x, y)
  }

  lemma RankedFirstExactly(ranked: seq<string>, x: string, y: string)
    requires x != y
    ensures RankedFirst(ranked, x, y) <==> x in ranked && (y in ranked ==> FirstIndex(ranked, x) < FirstIndex(ranked, y))
  {
    if k :| 0 <= k < |ranked| && ranked[k] == x && y !in ranked[..k] {
      if y in ranked {
        var j := FirstIndex(ranked, y);
        assert forall i :: 0 <= i < k ==> ranked[i] == ranked[..k][i];
        assert FirstIndex(ranked, x) <= k;
      }
    }
    if x in ranked && (y in ranked ==> FirstIndex(ranked, x) < FirstIndex(ranked, y)) {
      var k := FirstIndex(ranked, x);
      assert y !in ranked[..k];
    }
  }

  lemma FloorExactly(x: QueueItem, y: QueueItem)
    requires x.id != y.id
    ensures RankLess(FloorRank(x), FloorRank(y)) <==> Outweighs(x, y)
  {
    KeyOrderExactly(KeyOf(x), KeyOf(y));
  }

  lemma RankExactly(ranked: seq<string>, demoted: set<string>, x: QueueItem, y: QueueItem)
    requires x.id != y.id
    ensures RankLess(RankOf(x, ranked, demoted), RankOf(y, ranked, demoted)) <==> ComesBefore(ranked, demoted, x, y)
  {
    FloorExactly(x, y);
    RankedFirstExactly(ranked, x.id, y.id);
  }

  // The authorized items of the queue, each in front of all it comes before.
  ghost predicate InOrder(queue: seq<QueueItem>, ranked: seq<string>, demoted: set<string>, items: seq<QueueItem>) {
    && (forall x :: x in items <==> x in queue && Authorized(x))
    && (forall i, j :: 0 <= i < j < |items| ==> ComesBefore(ranked, demoted, items[i], items[j]))
    && (forall i, j :: 0 <= i < |items| && 0 <= j < |items| && ComesBefore(ranked, demoted, items[i], items[j]) ==> i <= j)
  }

  lemma RankedIsInOrder(queue: seq<QueueItem>, ranked: seq<string>, demoted: set<string>, items: seq<QueueItem>)
    requires UniqueIds(queue) && Ranked(queue, ranked, demoted, items)
    ensures InOrder(queue, ranked, demoted, items)
  {
    forall i, j | 0 <= i < j < |items|
      ensures ComesBefore(ranked, demoted, items[i], items[j]) && !ComesBefore(ranked, demoted, items[j], items[i])
    {
      var x, y := items[i], items[j];
      assert x in items && y in items;
      assert RankLess(RankOf(x, ranked, demoted), RankOf(y, ranked, demoted));
      if x.id == y.id {
        SameIdSameItem(queue, x, y);
      }
      RankExactly(ranked, demoted, x, y);
      RankExactly(ranked, demoted, y, x);
      if RankLess(RankOf(y, ranked, demoted), RankOf(x, ranked, demoted)) {
        RankAntisymmetric(RankOf(x, ranked, demoted), RankOf(y, ranked, demoted));
      }
    }
  }

  /** The composed ranking lists the authorized items; of any two, first the one not demoted, then the one that the
      principal or, after that, the computed order names first, then the one that unblocks more, then the older. */
  method ComposeRanking(queue: seq<QueueItem>, principal: seq<string>, computed: seq<string>, demoted: set<string>)
    returns (result: seq<string>)
    ensures result == Composed(queue, principal + computed, demoted)
    ensures UniqueIds(queue) ==> exists items :: result == IdsOf(items) && InOrder(queue, principal + computed, demoted, items)
  {
    result := AssembleRanking(queue, principal, computed, demoted);
    if UniqueIds(queue) {
      ghost var items := ComposedIsRanked(queue, principal + computed, demoted);
      RankedIsInOrder(queue, principal + computed, demoted, items);
    }
  }
}
