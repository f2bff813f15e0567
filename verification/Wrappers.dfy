// The two result shapes used throughout the model, and the contents of a sequence.
module Wrappers {
  datatype Option<+T> = None | Some(value: T)

  datatype Result<+T, +E> = Ok(value: T) | Err(error: E)

  function Elements<T>(s: seq<T>): set<T> {
    set x | x in s
  }

  predicate Distinct<T(==)>(s: seq<T>) {
    forall i, j :: 0 <= i < j < |s| ==> s[i] != s[j]
  }

  function FirstIndex<T(==)>(s: seq<T>, x: T): (i: nat)
    requires x in s
    ensures i < |s| && s[i] == x && forall j :: 0 <= j < i ==> s[j] != x
  {
    if s[0] == x then 0 else 1 + FirstIndex(s[1..], x)
  }

  lemma TailMembers<T>(a: seq<T>, b: seq<T>)
    requires a != [] && b != [] && a[0] == b[0] && a[0] !in a[1..] && b[0] !in b[1..]
    requires forall x :: x in a <==> x in b
    ensures forall x :: x in a[1..] <==> x in b[1..]
  {
    assert a == [a[0]] + a[1..] && b == [b[0]] + b[1..];
    assert forall x :: x in a <==> x == a[0] || x in a[1..];
    assert forall x :: x in b <==> x == b[0] || x in b[1..];
  }

  lemma NonemptyHasMember<T>(s: seq<T>)
    ensures s != [] ==> s[0] in s
  {
  }
}
