/** crates/ostrom-core/src/check.rs, lines 417-431: the form of a JSON value that is digested, with the
    members of every object in the order of their keys. */
module Canonical {
  import opened Wrappers
  import opened Order

  // `Atom` stands for null, a boolean, a number or a string, by its text.
  datatype Json = Atom(text: string) | Array(items: seq<Json>) | Object(members: seq<Member>)

  datatype Member = Member(key: string, value: Json)

  predicate DistinctKeys(members: seq<Member>) {
    forall i, j :: 0 <= i < j < |members| ==> members[i].key != members[j].key
  }

  // No object holds a key twice, at any level.
  predicate Proper(j: Json) {
    match j
    case Atom(_) => true
    case Array(items) => forall x :: x in items ==> Proper(x)
    case Object(members) => DistinctKeys(members) && forall m :: m in members ==> Proper(m.value)
  }

  function Keys(members: seq<Member>): set<string> {
    set m | m in members :: m.key
  }

  /** Equal but for the order of members. */
  ghost predicate Same(a: Json, b: Json) {
    match a
    case Atom(_) => a == b
    case Array(items) =>
      b.Array? && |items| == |b.items| && forall i :: 0 <= i < |items| ==> Same(items[i], b.items[i])
    case Object(members) =>
      && b.Object? && Keys(members) == Keys(b.members)
      && forall m, n :: m in members && n in b.members && m.key == n.key ==> Same(m.value, n.value)
  }

  predicate Ordered(members: seq<Member>) {
    forall i, j :: 0 <= i < j < |members| ==> Less(members[i].key, members[j].key)
  }

  // Adds a member to an ordered map; an equal key is replaced.
  function Put(members: seq<Member>, m: Member): seq<Member> {
    if members == [] then [m]
    else if members[0].key == m.key then [m] + members[1..]
    else if Leq(m.key, members[0].key) then [m] + members
    else [members[0]] + Put(members[1..], m)
  }

  function Canonical(j: Json): Json
    decreases j, 1
  {
    match j
    case Atom(_) => j
    case Array(items) => Array(CanonicalAll(items))
    case Object(members) => Object(CanonicalMembers(members))
  }

  function CanonicalAll(items: seq<Json>): seq<Json>
    decreases items, 0
  {
    if items == [] then [] else CanonicalAll(items[..|items| - 1]) + [Canonical(items[|items| - 1])]
  }

  function CanonicalMembers(members: seq<Member>): seq<Member>
    decreases members, 0
  {
    if members == [] then []
    else
      var last := members[|members| - 1];
      Put(CanonicalMembers(members[..|members| - 1]), CanonicalMember(last))
  }

  function CanonicalMember(m: Member): Member
    decreases m, 0
  {
    Member(m.key, Canonical(m.value))
  }

  method Canonicalize(j: Json) returns (r: Json)
    ensures r == Canonical(j)
    decreases j, 1
  {
    match j {
      case Atom(_) => r := j;
      case Array(items) =>
        var done := CanonicalizeAll(items);
        r := Array(done);
      case Object(members) =>
        var sorted := CanonicalizeMembers(members);
        r := Object(sorted);
    }
  }

  method CanonicalizeAll(items: seq<Json>) returns (done: seq<Json>)
    ensures done == CanonicalAll(items)
    decreases items, 0
  {
    done := [];
    for k := 0 to |items|
      invariant done == CanonicalAll(items[..k])
    {
      var item := Canonicalize(items[k]);
      done := done + [item];
      assert items[..k + 1][..k] == items[..k];
    }
    assert items[..|items|] == items;
  }

  method CanonicalizeMembers(members: seq<Member>) returns (sorted: seq<Member>)
    ensures sorted == CanonicalMembers(members)
    decreases members, 0
  {
    sorted := [];
    for k := 0 to |members|
      invariant sorted == CanonicalMembers(members[..k])
    {
      var m := CanonicalizeMember(members[k]);
      sorted := Put(sorted, m);
      assert members[..k + 1][..k] == members[..k];
    }
    assert members[..|members|] == members;
  }

  method CanonicalizeMember(m: Member) returns (r: Member)
    ensures r == CanonicalMember(m)
    decreases m, 0
  {
    var value := Canonicalize(m.value);
    r := Member(m.key, value);
  }

  // ---- The ordered map ----

  lemma FrontIsLess(key: string, members: seq<Member>)
    requires Ordered(members) && members != [] && key !in Keys(members) && Leq(key, members[0].key)
    ensures forall i :: 0 <= i < |members| ==> Less(key, members[i].key)
  {
    forall i | 0 <= i < |members|
      ensures Less(key, members[i].key)
    {
      assert members[i] in members;
      if i > 0 {
        assert Less(members[0].key, members[i].key);
        LeqTransitive(key, members[0].key, members[i].key);
      }
    }
  }

  lemma {:induction false} PutKeepsOrder(members: seq<Member>, m: Member)
    requires Ordered(members) && m.key !in Keys(members)
    ensures Ordered(Put(members, m))
    ensures forall x :: x in Put(members, m) <==> x in members || x == m
  {
    if members != [] {
      var head, rest := members[0], members[1..];
      assert members == [head] + rest && head in members;
      LeqTotal(m.key, head.key);
      if Leq(m.key, head.key) {
        FrontIsLess(m.key, members);
      } else {
        assert forall x :: x in rest ==> x in members;
        PutKeepsOrder(rest, m);
        assert forall x :: x in Put(rest, m) ==> Less(head.key, x.key);
      }
    }
  }

  lemma {:induction false} CanonicalMembersAre(members: seq<Member>)
    requires DistinctKeys(members)
    ensures Ordered(CanonicalMembers(members))
    ensures forall x :: x in CanonicalMembers(members) <==> exists m :: m in members && x == CanonicalMember(m)
  {
    if members != [] {
      var n := |members| - 1;
      var last, before := members[n], CanonicalMembers(members[..n]);
      CanonicalMembersAre(members[..n]);
      assert members == members[..n] + [last];
      assert last.key !in Keys(before);
      PutKeepsOrder(before, CanonicalMember(last));
      forall x | x in CanonicalMembers(members)
        ensures exists m :: m in members && x == CanonicalMember(m)
      {
        if x in before {
          var m :| m in members[..n] && x == CanonicalMember(m);
          assert m in members;
        } else {
          assert last in members;
        }
      }
      forall m | m in members
        ensures CanonicalMember(m) in CanonicalMembers(members)
      {
        assert m == last || m in members[..n];
      }
    }
  }

  lemma {:induction false} OrderedIsUnique(a: seq<Member>, b: seq<Member>)
    requires Ordered(a) && Ordered(b) && forall x :: x in a <==> x in b
    ensures a == b
  {
    NonemptyHasMember(a);
    NonemptyHasMember(b);
    if a != [] && b != [] {
      if a[0] != b[0] {
        assert Less(a[0].key, b[0].key) && Less(b[0].key, a[0].key);
        LeqAntisymmetric(a[0].key, b[0].key);
      }
      TailMembers(a, b);
      OrderedIsUnique(a[1..], b[1..]);
      assert a == [a[0]] + a[1..] && b == [b[0]] + b[1..];
    }
  }

  lemma {:induction false} CanonicalAllAt(items: seq<Json>)
    ensures |CanonicalAll(items)| == |items|
    ensures forall i :: 0 <= i < |items| ==> CanonicalAll(items)[i] == Canonical(items[i])
  {
    if items != [] {
      CanonicalAllAt(items[..|items| - 1]);
    }
  }

  // ---- The canonical form decides equality ----

  lemma SameMembers(members: seq<Member>, others: seq<Member>)
    requires DistinctKeys(members) && DistinctKeys(others)
    requires Keys(members) == Keys(others)
    requires forall m, n :: m in members && n in others && m.key == n.key ==> Canonical(m.value) == Canonical(n.value)
    ensures CanonicalMembers(members) == CanonicalMembers(others)
  {
    CanonicalMembersAre(members);
    CanonicalMembersAre(others);
    var s, t := CanonicalMembers(members), CanonicalMembers(others);
    forall x | x in s
      ensures x in t
    {
      var m :| m in members && x == CanonicalMember(m);
      assert m.key in Keys(others);
      var n :| n in others && n.key == m.key;
      assert CanonicalMember(n) == x;
    }
    forall x | x in t
      ensures x in s
    {
      var n :| n in others && x == CanonicalMember(n);
      assert n.key in Keys(members);
      var m :| m in members && m.key == n.key;
      assert CanonicalMember(m) == x;
    }
    OrderedIsUnique(s, t);
  }

  lemma KeysAreKept(members: seq<Member>)
    requires DistinctKeys(members)
    ensures Keys(CanonicalMembers(members)) == Keys(members)
  {
    CanonicalMembersAre(members);
    forall m | m in members
      ensures m.key in Keys(CanonicalMembers(members))
    {
      assert CanonicalMember(m) in CanonicalMembers(members);
    }
  }

  lemma OneMemberForKey(members: seq<Member>, x: Member, y: Member)
    requires Ordered(members) && x in members && y in members && x.key == y.key
    ensures x == y
  {
  }

  lemma MembersAgree(members: seq<Member>, others: seq<Member>, m: Member, n: Member)
    requires DistinctKeys(members) && DistinctKeys(others)
    requires CanonicalMembers(members) == CanonicalMembers(others)
    requires m in members && n in others && m.key == n.key
    ensures Canonical(m.value) == Canonical(n.value)
  {
    CanonicalMembersAre(members);
    CanonicalMembersAre(others);
    OneMemberForKey(CanonicalMembers(members), CanonicalMember(m), CanonicalMember(n));
  }

  /** Two values have the same canonical form exactly when they differ in the order of members only. */
  lemma {:induction false} CanonicalDecidesSame(a: Json, b: Json)
    requires Proper(a) && Proper(b)
    ensures Canonical(a) == Canonical(b) <==> Same(a, b)
  {
    match (a, b)
    case (Array(items), Array(others)) =>
      CanonicalAllAt(items);
      CanonicalAllAt(others);
      forall i | 0 <= i < |items| && i < |others|
        ensures Canonical(items[i]) == Canonical(others[i]) <==> Same(items[i], others[i])
      {
        CanonicalDecidesSame(items[i], others[i]);
      }
      if Same(a, b) {
        assert CanonicalAll(items) == CanonicalAll(others);
      }
    case (Object(members), Object(others)) =>
      forall m, n | m in members && n in others && m.key == n.key
        ensures Canonical(m.value) == Canonical(n.value) <==> Same(m.value, n.value)
      {
        CanonicalDecidesSame(m.value, n.value);
      }
      if Same(a, b) {
        SameMembers(members, others);
      }
      if Canonical(a) == Canonical(b) {
        KeysAreKept(members);
        KeysAreKept(others);
        forall m, n | m in members && n in others && m.key == n.key
          ensures Canonical(m.value) == Canonical(n.value)
        {
          MembersAgree(members, others, m, n);
        }
      }
    case _ =>
  }

  // The keys of every object are in increasing order.
  predicate InOrder(j: Json) {
    match j
    case Atom(_) => true
    case Array(items) => forall x :: x in items ==> InOrder(x)
    case Object(members) => Ordered(members) && forall m :: m in members ==> InOrder(m.value)
  }

  /** The canonical form is ordered throughout, and says the same as the value. */
  lemma {:induction false} CanonicalIsOrdered(a: Json)
    requires Proper(a)
    ensures InOrder(Canonical(a)) && Proper(Canonical(a)) && Same(Canonical(a), a)
  {
    match a
    case Atom(_) =>
    case Array(items) =>
      CanonicalAllAt(items);
      forall i | 0 <= i < |items|
        ensures var c := CanonicalAll(items)[i]; InOrder(c) && Proper(c) && Same(c, items[i])
      {
        CanonicalIsOrdered(items[i]);
      }
    case Object(members) =>
      CanonicalMembersAre(members);
      var s := CanonicalMembers(members);
      forall m | m in members
        ensures var c := Canonical(m.value); InOrder(c) && Proper(c) && Same(c, m.value)
      {
        CanonicalIsOrdered(m.value);
      }
      KeysAreKept(members);
      forall x, n | x in s && n in members && x.key == n.key
        ensures Same(x.value, n.value)
      {
        var m :| m in members && x == CanonicalMember(m);
        assert m == n;
      }
  }

  /** Canonicalizing again changes nothing. */
  lemma CanonicalIsIdempotent(a: Json)
    requires Proper(a)
    ensures Canonical(Canonical(a)) == Canonical(a)
  {
    CanonicalIsOrdered(a);
    CanonicalDecidesSame(Canonical(a), a);
  }
}
