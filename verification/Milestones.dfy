/** crates/ostrom-core/src/plan.rs, lines 385-451: the order of a goal's open milestones and
    the one to work on next. */
module Milestones {
  import opened Wrappers
  import opened Digraph
  import opened Order

  datatype Milestone = Milestone(id: string, openedAt: string, blockedBy: seq<string>)

  function KeyOf(m: Milestone): Key {
    Key(m.openedAt, m.id)
  }

  function Ids(milestones: seq<Milestone>): set<string> {
    set m | m in milestones :: m.id
  }

  // Every dependency is either not an open milestone or already placed.
  predicate Eligible(openIds: set<string>, placed: seq<Milestone>, m: Milestone) {
    forall d :: d in m.blockedBy ==> d !in openIds || d in Ids(placed)
  }

  function RemoveAt<T>(s: seq<T>, i: nat): seq<T>
    requires i < |s|
  {
    s[..i] + s[i + 1..]
  }

  // `i` is the first of the eligible milestones with the least key, or the first of
  // all when none is eligible.
  ghost predicate IsChoice(openIds: set<string>, placed: seq<Milestone>, remaining: seq<Milestone>, i: nat) {
    && i < |remaining|
    && if exists m :: m in remaining && Eligible(openIds, placed, m) then
         && Eligible(openIds, placed, remaining[i])
         && forall j :: 0 <= j < |remaining| && Eligible(openIds, placed, remaining[j]) ==>
              KeyLeq(KeyOf(remaining[i]), KeyOf(remaining[j])) &&
              (j < i ==> !KeyLeq(KeyOf(remaining[j]), KeyOf(remaining[i])))
       else i == 0
  }

  // The least eligible milestone among the first `n`, the earliest of equals.
  function LeastEligible(openIds: set<string>, placed: seq<Milestone>, remaining: seq<Milestone>, n: nat): (r: Option<nat>)
    requires n <= |remaining|
    ensures r.None? ==> forall j :: 0 <= j < n ==> !Eligible(openIds, placed, remaining[j])
    ensures r.Some? ==> r.value < n && Eligible(openIds, placed, remaining[r.value])
    ensures r.Some? ==> forall j :: 0 <= j < n && Eligible(openIds, placed, remaining[j]) ==>
      KeyLeq(KeyOf(remaining[r.value]), KeyOf(remaining[j])) &&
      (j < r.value ==> !KeyLeq(KeyOf(remaining[j]), KeyOf(remaining[r.value])))
  {
    if n == 0 then None
    else
      var best := LeastEligible(openIds, placed, remaining, n - 1);
      var m := remaining[n - 1];
      if !Eligible(openIds, placed, m) then best
      else if best.None? then
        KeyTotal(KeyOf(m), KeyOf(m));
        Some(n - 1)
      else
        var b := KeyOf(remaining[best.value]);
        KeyTotal(b, KeyOf(m));
        assert forall j :: 0 <= j < n - 1 && Eligible(openIds, placed, remaining[j]) && KeyLeq(KeyOf(m), b) ==>
            KeyLeq(KeyOf(m), KeyOf(remaining[j])) by {
          forall j | 0 <= j < n - 1 && Eligible(openIds, placed, remaining[j]) && KeyLeq(KeyOf(m), b)
            ensures KeyLeq(KeyOf(m), KeyOf(remaining[j]))
          {
            KeyTransitive(KeyOf(m), b, KeyOf(remaining[j]));
          }
        }
        if KeyLeq(b, KeyOf(m)) then best
        else
          assert forall j :: 0 <= j < n - 1 && Eligible(openIds, placed, remaining[j]) ==> !KeyLeq(KeyOf(remaining[j]), KeyOf(m)) by {
            forall j | 0 <= j < n - 1 && Eligible(openIds, placed, remaining[j]) && KeyLeq(KeyOf(remaining[j]), KeyOf(m))
              ensures false
            {
              KeyTransitive(b, KeyOf(remaining[j]), KeyOf(m));
            }
          }
          KeyTotal(KeyOf(m), KeyOf(m));
          Some(n - 1)
  }

  function Choose(openIds: set<string>, placed: seq<Milestone>, remaining: seq<Milestone>): (i: nat)
    requires remaining != []
    ensures IsChoice(openIds, placed, remaining, i)
  {
    match LeastEligible(openIds, placed, remaining, |remaining|)
    case Some(i) => i
    case None => 0
  }

  function GreedyOrder(openIds: set<string>, placed: seq<Milestone>, remaining: seq<Milestone>): (r: seq<Milestone>)
    decreases |remaining|
  {
    if remaining == [] then []
    else
      var i := Choose(openIds, placed, remaining);
      [remaining[i]] + GreedyOrder(openIds, placed + [remaining[i]], RemoveAt(remaining, i))
  }

  function OrderOf(open: seq<Milestone>): seq<Milestone> {
    GreedyOrder(Ids(open), [], open)
  }

  lemma GreedyUnfolds(openIds: set<string>, placed: seq<Milestone>, remaining: seq<Milestone>)
    requires remaining != []
    ensures var i := Choose(openIds, placed, remaining);
            var next := placed + [remaining[i]];
            placed + GreedyOrder(openIds, placed, remaining) == next + GreedyOrder(openIds, next, RemoveAt(remaining, i))
  {
  }

  method OrderMilestones(open: seq<Milestone>) returns (ordered: seq<Milestone>)
    ensures ordered == OrderOf(open)
  {
    var openIds := Ids(open);
    ordered := [];
    var remaining := open;
    while remaining != []
      invariant ordered + GreedyOrder(openIds, ordered, remaining) == OrderOf(open)
      decreases |remaining|
    {
      var index := Choose(openIds, ordered, remaining);
      GreedyUnfolds(openIds, ordered, remaining);
      ordered, remaining := ordered + [remaining[index]], RemoveAt(remaining, index);
    }
  }

  predicate Unblocked(openIds: set<string>, m: Milestone) {
    forall d :: d in m.blockedBy ==> d !in openIds
  }

  ghost predicate FirstUnblocked(openIds: set<string>, ordered: seq<Milestone>, i: nat) {
    && i < |ordered| && Unblocked(openIds, ordered[i])
    && forall j :: 0 <= j < i ==> !Unblocked(openIds, ordered[j])
  }

  method NextMilestone(ordered: seq<Milestone>, openIds: set<string>) returns (next: Option<string>)
    ensures next.None? ==> forall m :: m in ordered ==> !Unblocked(openIds, m)
    ensures next.Some? ==> exists i: nat :: FirstUnblocked(openIds, ordered, i) && ordered[i].id == next.value
  {
    for i := 0 to |ordered|
      invariant forall j :: 0 <= j < i ==> !Unblocked(openIds, ordered[j])
    {
      if Unblocked(openIds, ordered[i]) {
        assert FirstUnblocked(openIds, ordered, i);
        return Some(ordered[i].id);
      }
    }
    next := None;
  }

  // ---- Every milestone is placed once ----

  lemma RemoveAtIsPermutation<T>(s: seq<T>, i: nat)
    requires i < |s|
    ensures multiset([s[i]] + RemoveAt(s, i)) == multiset(s)
  {
    assert s == s[..i] + [s[i]] + s[i + 1..];
  }

  lemma {:induction false} OrderIsPermutation(openIds: set<string>, placed: seq<Milestone>, remaining: seq<Milestone>)
    ensures multiset(GreedyOrder(openIds, placed, remaining)) == multiset(remaining)
    decreases |remaining|
  {
    if remaining != [] {
      var i := Choose(openIds, placed, remaining);
      OrderIsPermutation(openIds, placed + [remaining[i]], RemoveAt(remaining, i));
      RemoveAtIsPermutation(remaining, i);
    }
  }

  lemma SameMembers<T>(a: seq<T>, b: seq<T>)
    requires multiset(a) == multiset(b)
    ensures forall x :: x in a <==> x in b
    ensures |a| == |b|
  {
    forall x
      ensures x in a <==> x in b
    {
      assert x in multiset(a) <==> x in multiset(b);
    }
    assert |multiset(a)| == |a| && |multiset(b)| == |b|;
  }

  // ---- Each step takes the least eligible milestone ----

  // After `placed`, `m` is a least eligible milestone of `rest`, if `rest` has any.
  ghost predicate GreedyStep(openIds: set<string>, placed: seq<Milestone>, m: Milestone, rest: seq<Milestone>) {
    forall x :: x in rest && Eligible(openIds, placed, x) ==>
      Eligible(openIds, placed, m) && KeyLeq(KeyOf(m), KeyOf(x))
  }

  lemma HeadIsGreedy(openIds: set<string>, placed: seq<Milestone>, remaining: seq<Milestone>)
    requires remaining != []
    ensures var r := GreedyOrder(openIds, placed, remaining);
      r != [] && GreedyStep(openIds, placed, r[0], r)
  {
    var r := GreedyOrder(openIds, placed, remaining);
    OrderIsPermutation(openIds, placed, remaining);
    SameMembers(r, remaining);
    var i := Choose(openIds, placed, remaining);
    assert IsChoice(openIds, placed, remaining, i) && r[0] == remaining[i];
  }

  lemma GreedyStepShifts(openIds: set<string>, placed: seq<Milestone>, head: Milestone, rest: seq<Milestone>, k: nat)
    requires 0 < k <= |rest|
    requires GreedyStep(openIds, placed + [head] + rest[..k - 1], rest[k - 1], rest[k - 1..])
    ensures var r := [head] + rest;
      GreedyStep(openIds, placed + r[..k], r[k], r[k..])
  {
    var r := [head] + rest;
    assert placed + [head] + rest[..k - 1] == placed + r[..k];
    assert rest[k - 1..] == r[k..];
  }

  lemma {:induction false} StepsAreGreedy(openIds: set<string>, placed: seq<Milestone>, remaining: seq<Milestone>, k: nat)
    requires k < |GreedyOrder(openIds, placed, remaining)|
    ensures var r := GreedyOrder(openIds, placed, remaining);
      GreedyStep(openIds, placed + r[..k], r[k], r[k..])
    decreases |remaining|
  {
    if k == 0 {
      HeadIsGreedy(openIds, placed, remaining);
      var r := GreedyOrder(openIds, placed, remaining);
      assert placed + r[..0] == placed && r[0..] == r;
    } else {
      var i := Choose(openIds, placed, remaining);
      var rest := GreedyOrder(openIds, placed + [remaining[i]], RemoveAt(remaining, i));
      StepsAreGreedy(openIds, placed + [remaining[i]], RemoveAt(remaining, i), k - 1);
      GreedyStepShifts(openIds, placed, remaining[i], rest, k);
    }
  }

  // ---- Dependencies come first ----

  // From a milestone to each open milestone that blocks it.
  ghost function Blockers(open: seq<Milestone>): Graph {
    set m, d | m in open && d in m.blockedBy && d in Ids(open) :: (m.id, d)
  }

  // No cycle is among the milestones that `id` waits for, directly or not.
  ghost predicate AcyclicClosure(open: seq<Milestone>, id: string) {
    forall x :: x == id || Leads(Blockers(open), id, x) ==> !OnCycle(Blockers(open), x)
  }

  lemma BlockedHasLaterBlocker(open: seq<Milestone>, ordered: seq<Milestone>, k: nat, m: Milestone)
    requires multiset(ordered) == multiset(open) && k <= |ordered|
    requires m in ordered[k..] && !Eligible(Ids(open), ordered[..k], m)
    ensures HasSuccessorIn(Blockers(open), Ids(ordered[k..]), m.id)
  {
    SameMembers(ordered, open);
    var d :| d in m.blockedBy && d in Ids(open) && d !in Ids(ordered[..k]);
    var x :| x in open && x.id == d;
    assert x in ordered && ordered == ordered[..k] + ordered[k..];
    assert Edge(Blockers(open), m.id, d) && d in Ids(ordered[k..]);
  }

  lemma StuckReachesACycle(open: seq<Milestone>, k: nat)
    requires k < |OrderOf(open)|
    requires !Eligible(Ids(open), OrderOf(open)[..k], OrderOf(open)[k])
    ensures !AcyclicClosure(open, OrderOf(open)[k].id)
  {
    var ordered := OrderOf(open);
    StepsAreGreedy(Ids(open), [], open, k);
    OrderIsPermutation(Ids(open), [], open);
    assert [] + ordered[..k] == ordered[..k];
    var rest := Ids(ordered[k..]);
    forall id {:trigger HasSuccessorIn(Blockers(open), rest, id)} | id in rest
      ensures HasSuccessorIn(Blockers(open), rest, id)
    {
      var m :| m in ordered[k..] && m.id == id;
      BlockedHasLaterBlocker(open, ordered, k, m);
    }
    assert ordered[k] in ordered[k..];
    var on := NoSinkGivesCycle(Blockers(open), rest, ordered[k].id);
  }

  /** Even with cycles elsewhere, a milestone whose dependency closure is acyclic follows every
      open milestone it depends on; the fallback to the first remaining milestone
      never picks it early. */
  lemma AcyclicMilestoneFollowsItsBlockers(open: seq<Milestone>, k: nat)
    requires k < |OrderOf(open)| && AcyclicClosure(open, OrderOf(open)[k].id)
    ensures Eligible(Ids(open), OrderOf(open)[..k], OrderOf(open)[k])
    ensures forall x :: x in open && x.id in OrderOf(open)[k].blockedBy ==>
      exists j :: 0 <= j < k && OrderOf(open)[j].id == x.id
  {
    if !Eligible(Ids(open), OrderOf(open)[..k], OrderOf(open)[k]) {
      StuckReachesACycle(open, k);
    }
    forall x | x in open && x.id in OrderOf(open)[k].blockedBy
      ensures exists j :: 0 <= j < k && OrderOf(open)[j].id == x.id
    {
      assert x.id in Ids(OrderOf(open)[..k]);
      var y :| y in OrderOf(open)[..k] && y.id == x.id;
    }
  }

  ghost predicate Topological(open: seq<Milestone>, order: seq<Milestone>) {
    && multiset(order) == multiset(open)
    && forall k :: 0 <= k < |order| ==> Eligible(Ids(open), order[..k], order[k])
  }

  ghost predicate UniqueIds(open: seq<Milestone>) {
    forall i, j :: 0 <= i < j < |open| ==> open[i].id != open[j].id
  }

  lemma AcyclicOrderIsTopological(open: seq<Milestone>)
    requires Acyclic(Blockers(open))
    ensures Topological(open, OrderOf(open))
  {
    OrderIsPermutation(Ids(open), [], open);
    forall k | 0 <= k < |OrderOf(open)|
      ensures Eligible(Ids(open), OrderOf(open)[..k], OrderOf(open)[k])
    {
      AcyclicMilestoneFollowsItsBlockers(open, k);
    }
  }

  // ---- The order is the least one ----

  lemma SuffixMembers<T>(a: seq<T>, b: seq<T>, k: nat)
    requires multiset(a) == multiset(b) && k <= |a| && k <= |b| && a[..k] == b[..k]
    ensures multiset(a[k..]) == multiset(b[k..])
  {
    assert a == a[..k] + a[k..] && b == b[..k] + b[k..];
    assert multiset(a) == multiset(a[..k]) + multiset(a[k..]);
    assert multiset(b) == multiset(b[..k]) + multiset(b[k..]);
    assert multiset(a[k..]) == multiset(a) - multiset(a[..k]);
    assert multiset(b[k..]) == multiset(b) - multiset(b[..k]);
  }

  lemma SameKeySameMilestone(open: seq<Milestone>, a: Milestone, b: Milestone)
    requires UniqueIds(open) && a in open && b in open && a.id == b.id
    ensures a == b
  {
  }

  /** Where the order first differs from another topological order, it has the smaller
      (opened, id). */
  lemma OrderIsLeast(open: seq<Milestone>, other: seq<Milestone>, k: nat)
    requires UniqueIds(open) && Topological(open, other)
    requires k < |OrderOf(open)| && k < |other|
    requires OrderOf(open)[..k] == other[..k] && OrderOf(open)[k] != other[k]
    ensures Older(KeyOf(OrderOf(open)[k]), KeyOf(other[k]))
  {
    var ordered := OrderOf(open);
    OrderIsPermutation(Ids(open), [], open);
    StepsAreGreedy(Ids(open), [], open, k);
    assert [] + ordered[..k] == ordered[..k];
    SuffixMembers(ordered, other, k);
    SameMembers(ordered[k..], other[k..]);
    assert other[k] in other[k..] && ordered[k] in ordered[k..];
    SameMembers(ordered, open);
    if ordered[k].id == other[k].id {
      SameKeySameMilestone(open, ordered[k], other[k]);
    }
    KeyOrderExactly(KeyOf(ordered[k]), KeyOf(other[k]));
  }

  lemma {:induction false} FirstDifference<T>(a: seq<T>, b: seq<T>) returns (k: nat)
    requires |a| == |b| && a != b
    ensures k < |a| && a[..k] == b[..k] && a[k] != b[k]
  {
    if a[0] != b[0] {
      k := 0;
    } else {
      assert a == [a[0]] + a[1..] && b == [b[0]] + b[1..];
      var rest := FirstDifference(a[1..], b[1..]);
      k := rest + 1;
      assert a[..k] == [a[0]] + a[1..][..rest] && b[..k] == [b[0]] + b[1..][..rest];
    }
  }

  lemma SameBlockers(a: seq<Milestone>, b: seq<Milestone>)
    requires multiset(a) == multiset(b)
    ensures Blockers(a) == Blockers(b)
  {
    SameMembers(a, b);
    assert Ids(a) == Ids(b);
  }

  // ---- When the listing decides ----

  // Some cycle is among the milestones that this one waits for.
  ghost predicate ReachesCycle(open: seq<Milestone>, m: Milestone) {
    m in open && !AcyclicClosure(open, m.id)
  }

  ghost predicate ListingIrrelevant(open: seq<Milestone>) {
    forall other :: multiset(other) == multiset(open) ==> OrderOf(other) == OrderOf(open)
  }

  lemma ClosureOfBlockers(open: seq<Milestone>, id: string)
    requires forall c :: Edge(Blockers(open), id, c) ==> AcyclicClosure(open, c)
    ensures AcyclicClosure(open, id)
  {
    var g := Blockers(open);
    forall x | x == id || Leads(g, id, x)
      ensures !OnCycle(g, x)
    {
      if OnCycle(g, x) {
        var c := FirstEdge(g, id, x);
      }
    }
  }

  // As long as every placed milestone was eligible, none of them reaches a cycle.
  lemma {:induction false} EligiblePrefixIsAcyclic(open: seq<Milestone>, order: seq<Milestone>, k: nat)
    requires UniqueIds(open) && multiset(order) == multiset(open) && k < |order|
    requires forall j :: 0 <= j <= k ==> Eligible(Ids(open), order[..j], order[j])
    ensures AcyclicClosure(open, order[k].id)
  {
    SameMembers(order, open);
    forall c | Edge(Blockers(open), order[k].id, c)
      ensures AcyclicClosure(open, c)
    {
      var m :| m in open && m.id == order[k].id && c in m.blockedBy && c in Ids(open);
      SameKeySameMilestone(open, m, order[k]);
      assert c in Ids(order[..k]);
      var j :| 0 <= j < k && order[j].id == c;
      EligiblePrefixIsAcyclic(open, order, j);
    }
    ClosureOfBlockers(open, order[k].id);
  }

  lemma FirstIneligible(open: seq<Milestone>, order: seq<Milestone>, m: Milestone) returns (k: nat)
    requires UniqueIds(open) && multiset(order) == multiset(open) && ReachesCycle(open, m)
    ensures k < |order| && !Eligible(Ids(open), order[..k], order[k])
    ensures forall x :: ReachesCycle(open, x) ==> x !in order[..k]
  {
    SameMembers(order, open);
    k := 0;
    while k < |order| && Eligible(Ids(open), order[..k], order[k])
      invariant k <= |order|
      invariant forall j :: 0 <= j < k ==> Eligible(Ids(open), order[..j], order[j])
    {
      k := k + 1;
    }
    forall j | 0 <= j < k
      ensures !ReachesCycle(open, order[j])
    {
      EligiblePrefixIsAcyclic(open, order, j);
    }
  }

  lemma ShiftedPrefix(placed: seq<Milestone>, head: Milestone, rest: seq<Milestone>, k: nat)
    requires 0 < k <= |rest|
    ensures var r := [head] + rest;
            && placed + r[..k] == placed + [head] + rest[..k - 1]
            && (forall x :: x in r[..k] <==> x == head || x in rest[..k - 1])
  {
    var r := [head] + rest;
    assert r[..k] == [head] + rest[..k - 1];
  }

  // Once nothing is eligible, the milestone listed first is taken.
  lemma {:induction false} FallbackTakesFirst(openIds: set<string>, placed: seq<Milestone>, remaining: seq<Milestone>, k: nat)
    requires remaining != [] && k < |GreedyOrder(openIds, placed, remaining)|
    requires remaining[0] !in GreedyOrder(openIds, placed, remaining)[..k]
    requires var r := GreedyOrder(openIds, placed, remaining); !Eligible(openIds, placed + r[..k], r[k])
    ensures GreedyOrder(openIds, placed, remaining)[k] == remaining[0]
    decreases |remaining|
  {
    var r := GreedyOrder(openIds, placed, remaining);
    var i := Choose(openIds, placed, remaining);
    if k == 0 {
      assert placed + r[..0] == placed;
      assert IsChoice(openIds, placed, remaining, i);
    } else {
      var head, rest := remaining[i], RemoveAt(remaining, i);
      var tail := GreedyOrder(openIds, placed + [head], rest);
      ShiftedPrefix(placed, head, tail, k);
      FallbackTakesFirst(openIds, placed + [head], rest, k - 1);
    }
  }

  lemma MoveToFront(open: seq<Milestone>, z: Milestone) returns (other: seq<Milestone>)
    requires z in open
    ensures multiset(other) == multiset(open) && other != [] && other[0] == z
  {
    var i :| 0 <= i < |open| && open[i] == z;
    other := [z] + RemoveAt(open, i);
    RemoveAtIsPermutation(open, i);
  }

  lemma FirstListedComesNext(open: seq<Milestone>, other: seq<Milestone>, k: nat)
    requires multiset(other) == multiset(open) && other != []
    requires k < |OrderOf(open)| && !Eligible(Ids(open), OrderOf(open)[..k], OrderOf(open)[k])
    requires other[0] !in OrderOf(open)[..k]
    ensures OrderOf(other) == OrderOf(open) ==> OrderOf(open)[k] == other[0]
  {
    SameMembers(other, open);
    assert Ids(other) == Ids(open);
    assert [] + OrderOf(open)[..k] == OrderOf(open)[..k];
    if OrderOf(other) == OrderOf(open) {
      FallbackTakesFirst(Ids(other), [], other, k);
    }
  }

  // Listing another milestone that reaches a cycle first changes the order.
  lemma TwoOnCyclesExposeListing(open: seq<Milestone>, m: Milestone, n: Milestone)
    requires UniqueIds(open) && m != n && ReachesCycle(open, m) && ReachesCycle(open, n)
    ensures !ListingIrrelevant(open)
  {
    OrderIsPermutation(Ids(open), [], open);
    var k := FirstIneligible(open, OrderOf(open), m);
    var other := MoveToFront(open, if OrderOf(open)[k] == m then n else m);
    FirstListedComesNext(open, other, k);
  }

  lemma StepOfOrder(open: seq<Milestone>, k: nat)
    requires k < |OrderOf(open)|
    ensures GreedyStep(Ids(open), OrderOf(open)[..k], OrderOf(open)[k], OrderOf(open)[k..])
    ensures OrderOf(open)[k] in OrderOf(open)[k..] && OrderOf(open)[k] in open
  {
    StepsAreGreedy(Ids(open), [], open, k);
    assert [] + OrderOf(open)[..k] == OrderOf(open)[..k];
    OrderIsPermutation(Ids(open), [], open);
    SameMembers(OrderOf(open), open);
  }

  lemma SameRest(a: seq<Milestone>, b: seq<Milestone>, k: nat)
    requires multiset(a) == multiset(b) && k <= |OrderOf(a)| && k <= |OrderOf(b)|
    requires OrderOf(a)[..k] == OrderOf(b)[..k]
    ensures Ids(a) == Ids(b) && forall x :: x in OrderOf(a)[k..] <==> x in OrderOf(b)[k..]
  {
    SameMembers(a, b);
    OrderIsPermutation(Ids(a), [], a);
    OrderIsPermutation(Ids(b), [], b);
    SuffixMembers(OrderOf(a), OrderOf(b), k);
    SameMembers(OrderOf(a)[k..], OrderOf(b)[k..]);
  }

  lemma DifferenceIsStuck(a: seq<Milestone>, b: seq<Milestone>, k: nat)
    requires UniqueIds(a) && multiset(a) == multiset(b)
    requires k < |OrderOf(a)| && k < |OrderOf(b)|
    requires OrderOf(a)[..k] == OrderOf(b)[..k] && OrderOf(a)[k] != OrderOf(b)[k]
    ensures ReachesCycle(a, OrderOf(a)[k]) && ReachesCycle(a, OrderOf(b)[k])
  {
    var x, y := OrderOf(a)[k], OrderOf(b)[k];
    StepOfOrder(a, k);
    StepOfOrder(b, k);
    SameRest(a, b, k);
    SameMembers(a, b);
    if Eligible(Ids(a), OrderOf(a)[..k], x) || Eligible(Ids(a), OrderOf(a)[..k], y) {
      KeyAntisymmetric(KeyOf(x), KeyOf(y));
      SameKeySameMilestone(a, x, y);
    } else {
      StuckReachesACycle(a, k);
      StuckReachesACycle(b, k);
      SameBlockers(a, b);
    }
  }

  /** The order does not depend on the listing exactly when at most one milestone is on a cycle
      or waits for one. */
  lemma ListingIrrelevantExactly(open: seq<Milestone>)
    requires UniqueIds(open)
    ensures ListingIrrelevant(open) <==>
            forall m, n :: ReachesCycle(open, m) && ReachesCycle(open, n) ==> m == n
  {
    if m, n :| m != n && ReachesCycle(open, m) && ReachesCycle(open, n) {
      TwoOnCyclesExposeListing(open, m, n);
    } else {
      forall other | multiset(other) == multiset(open)
        ensures OrderOf(other) == OrderOf(open)
      {
        OrderIsPermutation(Ids(open), [], open);
        OrderIsPermutation(Ids(other), [], other);
        if OrderOf(open) != OrderOf(other) {
          SameMembers(OrderOf(open), OrderOf(other));
          var k := FirstDifference(OrderOf(open), OrderOf(other));
          DifferenceIsStuck(open, other, k);
        }
      }
    }
  }

  // In particular without cycles.
  lemma OrderIgnoresInputOrder(a: seq<Milestone>, b: seq<Milestone>)
    requires multiset(a) == multiset(b) && UniqueIds(a)
    requires Acyclic(Blockers(a))
    ensures OrderOf(a) == OrderOf(b)
  {
    ListingIrrelevantExactly(a);
  }

  predicate BlockEachOther(x: Milestone, y: Milestone) {
    x.id != y.id && x.blockedBy == [y.id] && y.blockedBy == [x.id]
  }

  lemma MutualBlockersFormACycle(x: Milestone, y: Milestone)
    requires BlockEachOther(x, y)
    ensures OnCycle(Blockers([x, y]), x.id)
  {
    var open := [x, y];
    assert x in open && y in open && y.id in x.blockedBy && x.id in y.blockedBy;
    assert x.id in Ids(open) && y.id in Ids(open);
    assert Edge(Blockers(open), x.id, y.id) && Edge(Blockers(open), y.id, x.id);
    EdgeLeads(Blockers(open), x.id, y.id);
    EdgeLeads(Blockers(open), y.id, x.id);
    LeadsTransitive(Blockers(open), x.id, y.id, x.id);
  }

  lemma MutualBlockersKeepInputOrder(x: Milestone, y: Milestone)
    requires BlockEachOther(x, y)
    ensures OrderOf([x, y]) != [] && OrderOf([x, y])[0] == x
  {
    var open := [x, y];
    assert x in open && y in open && y.id in x.blockedBy && x.id in y.blockedBy;
    assert !Eligible(Ids(open), [], x) && !Eligible(Ids(open), [], y);
    assert IsChoice(Ids(open), [], open, Choose(Ids(open), [], open));
  }

  // The least case in which the listing decides: of two milestones that block each other,
  // the one listed first comes first.
  lemma CyclesExposeInputOrder(x: Milestone, y: Milestone, open: seq<Milestone>, other: seq<Milestone>)
    requires BlockEachOther(x, y) && open == [x, y] && other == [y, x]
    ensures multiset(open) == multiset(other) && UniqueIds(open) && !Acyclic(Blockers(open))
    ensures OrderOf(open) != OrderOf(other)
  {
    MutualBlockersFormACycle(x, y);
    MutualBlockersKeepInputOrder(x, y);
    MutualBlockersKeepInputOrder(y, x);
    assert OrderOf(open)[0] != OrderOf(other)[0];
  }

  // ---- The next milestone ----

  ghost predicate LeastUnblocked(open: seq<Milestone>, m: Milestone) {
    && m in open && Unblocked(Ids(open), m)
    && forall x :: x in open && Unblocked(Ids(open), x) ==> KeyLeq(KeyOf(m), KeyOf(x))
  }

  lemma FirstUnblockedIsLeast(open: seq<Milestone>, i: nat)
    requires FirstUnblocked(Ids(open), OrderOf(open), i)
    ensures LeastUnblocked(open, OrderOf(open)[i])
  {
    var ordered := OrderOf(open);
    OrderIsPermutation(Ids(open), [], open);
    SameMembers(ordered, open);
    StepsAreGreedy(Ids(open), [], open, i);
    forall m | m in open && Unblocked(Ids(open), m)
      ensures KeyLeq(KeyOf(ordered[i]), KeyOf(m))
    {
      assert ordered == ordered[..i] + ordered[i..];
      assert m in ordered[i..];
      assert Eligible(Ids(open), [] + ordered[..i], m);
    }
  }

  // No open milestone is among those that this one waits for.
  predicate Free(open: seq<Milestone>, m: Milestone) {
    forall x :: x in open ==> x.id !in m.blockedBy
  }

  lemma UnblockedExactly(open: seq<Milestone>, m: Milestone)
    ensures Unblocked(Ids(open), m) <==> Free(open, m)
  {
    forall d | d in m.blockedBy && d in Ids(open)
      ensures !Free(open, m)
    {
      var x :| x in open && x.id == d;
    }
    assert forall x :: x in open ==> x.id in Ids(open);
  }

  // Among the free milestones this is the oldest.
  ghost predicate OldestFree(open: seq<Milestone>, m: Milestone) {
    && m in open && Free(open, m)
    && forall x :: x in open && Free(open, x) ==> KeyOf(x) == KeyOf(m) || Older(KeyOf(m), KeyOf(x))
  }

  lemma LeastIsOldest(open: seq<Milestone>, m: Milestone)
    requires LeastUnblocked(open, m)
    ensures OldestFree(open, m)
  {
    UnblockedExactly(open, m);
    forall x | x in open && Free(open, x)
      ensures KeyOf(x) == KeyOf(m) || Older(KeyOf(m), KeyOf(x))
    {
      UnblockedExactly(open, x);
      KeyOrderExactly(KeyOf(m), KeyOf(x));
    }
  }

  /** The next milestone is the oldest of those that wait for no open one, whatever cycles there are; there is none
      exactly when every milestone waits for an open one. */
  method NextOf(open: seq<Milestone>) returns (next: Option<string>)
    ensures next.None? <==> forall m :: m in open ==> !Free(open, m)
    ensures next.Some? ==> exists m :: OldestFree(open, m) && m.id == next.value
  {
    var ordered := OrderMilestones(open);
    next := NextMilestone(ordered, Ids(open));
    OrderIsPermutation(Ids(open), [], open);
    SameMembers(ordered, open);
    forall m | m in open
      ensures Unblocked(Ids(open), m) <==> Free(open, m)
    {
      UnblockedExactly(open, m);
    }
    if next.Some? {
      ghost var i: nat :| FirstUnblocked(Ids(open), ordered, i) && ordered[i].id == next.value;
      FirstUnblockedIsLeast(open, i);
      LeastIsOldest(open, ordered[i]);
    }
  }
}
