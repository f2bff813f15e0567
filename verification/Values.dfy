/** YAML values as they are authored in policies, and the parameter references in them:
    crates/ostrom-core/src/operation.rs, lines 356-391, and
    crates/ostrom-cli/src/operation_dispatch.rs, lines 194-238. */
module Values {
  import opened Wrappers

  datatype Value =
    | Null
    | Bool(b: bool)
    | Number(n: int)
    | String(s: string)
    | Sequence(items: seq<Value>)
    | Mapping(entries: seq<Entry>)
    | Tagged(tag: string, inner: Value)

  datatype Entry = Entry(key: Value, value: Value)

  const PREFIX := "$params."

  // The name after the reference prefix.
  function ReferenceOf(s: string): Option<string> {
    if PREFIX <= s then Some(s[|PREFIX|..]) else None
  }

  predicate Contains(s: string, part: string) {
    exists i :: 0 <= i <= |s| - |part| && part <= s[i..]
  }

  // A reference must be the whole string, with a plain name.
  predicate Malformed(s: string) {
    match ReferenceOf(s)
    case Some(name) => name == "" || exists c :: c in name && c in "${} /."
    case None => Contains(s, PREFIX)
  }

  // ---- What the authored value says ----

  // The references outside tagged values: what the static check looks at.
  function Refs(v: Value): set<string>
    decreases v, 1
  {
    match v
    case String(s) => if ReferenceOf(s).Some? then {ReferenceOf(s).value} else {}
    case Sequence(items) => RefsOfAll(items)
    case Mapping(entries) => RefsOfEntries(entries)
    case _ => {}
  }

  function RefsOfAll(items: seq<Value>): set<string>
    decreases items, 0
  {
    set x, r | x in items && r in Refs(x) :: r
  }

  function RefsOfEntries(entries: seq<Entry>): set<string>
    decreases entries, 0
  {
    set e, r | e in entries && r in RefsOfEntry(e) :: r
  }

  function RefsOfEntry(e: Entry): set<string>
    decreases e, 0
  {
    Refs(e.key) + Refs(e.value)
  }

  lemma RefsOfMore(items: seq<Value>, x: Value)
    ensures RefsOfAll(items + [x]) == RefsOfAll(items) + Refs(x)
  {
  }

  lemma RefsOfMoreEntries(entries: seq<Entry>, e: Entry)
    ensures RefsOfEntries(entries + [e]) == RefsOfEntries(entries) + RefsOfEntry(e)
  {
  }

  predicate WellFormed(v: Value) {
    match v
    case String(s) => !Malformed(s)
    case Sequence(items) => forall x :: x in items ==> WellFormed(x)
    case Mapping(entries) => forall e :: e in entries ==> WellFormed(e.key) && WellFormed(e.value)
    case _ => true
  }

  // The reference prefix stands at this place of the string.
  predicate PrefixAt(s: string, i: nat) {
    i + |PREFIX| <= |s| && s[i..i + |PREFIX|] == PREFIX
  }

  lemma PrefixShows(s: string, i: nat)
    requires PrefixAt(s, i)
    ensures s[i] == '$' && Contains(s, PREFIX)
  {
    assert s[i] == s[i..i + |PREFIX|][0];
    assert s[i..][..|PREFIX|] == s[i..i + |PREFIX|];
    assert PREFIX <= s[i..];
  }

  lemma DollarIsFirst(s: string, i: nat)
    requires WellFormed(String(s)) && PREFIX <= s && i < |s| && s[i] == '$'
    ensures i == 0
  {
    assert '$' == "${} /."[0];
    if i >= |PREFIX| {
      NameIsPlain(s, i);
    } else {
      assert s[i] == PREFIX[i];
    }
  }

  /** In a well-formed string a reference is the whole string: the prefix stands at the start or nowhere, and what
      follows is a name without punctuation of its own. */
  lemma ReferencesAreWhole(s: string, i: nat)
    requires WellFormed(String(s)) && PrefixAt(s, i)
    ensures i == 0 && |s| > |PREFIX|
    ensures forall k :: |PREFIX| <= k < |s| ==> s[k] !in "${} /."
  {
    PrefixShows(s, i);
    DollarIsFirst(s, i);
    forall k | |PREFIX| <= k < |s|
      ensures s[k] !in "${} /."
    {
      NameIsPlain(s, k);
    }
  }

  lemma NameIsPlain(s: string, k: nat)
    requires WellFormed(String(s)) && PREFIX <= s && |PREFIX| <= k < |s|
    ensures s[k] !in "${} /."
  {
    assert s[|PREFIX|..][k - |PREFIX|] == s[k];
  }

  predicate Untagged(v: Value) {
    match v
    case Tagged(_, _) => false
    case Sequence(items) => forall x :: x in items ==> Untagged(x)
    case Mapping(entries) => forall e :: e in entries ==> Untagged(e.key) && Untagged(e.value)
    case _ => true
  }

  // A mapping has each key once, at every level.
  predicate DistinctKeys(v: Value) {
    match v
    case Sequence(items) => forall x :: x in items ==> DistinctKeys(x)
    case Mapping(entries) =>
      && (forall e :: e in entries ==> DistinctKeys(e.key) && DistinctKeys(e.value))
      && (forall i, j :: 0 <= i < j < |entries| ==> entries[i].key != entries[j].key)
    case Tagged(_, inner) => DistinctKeys(inner)
    case _ => true
  }

  // ---- The static collection ----

  /** Adds the references of a value to a set, or reports a malformed one. */
  method CollectReferences(v: Value, references0: set<string>) returns (r: Result<(), string>, references: set<string>)
    ensures r.Ok? <==> WellFormed(v)
    ensures r.Ok? ==> references == references0 + Refs(v)
    ensures r.Err? ==> Malformed(r.error)
    decreases v, 1
  {
    references := references0;
    match v {
      case String(s) =>
        if Malformed(s) {
          return Err(s), references;
        }
        var name := ReferenceOf(s);
        if name.Some? {
          references := references + {name.value};
        }
        r := Ok(());
      case Sequence(items) => r, references := CollectFromAll(items, references);
      case Mapping(entries) => r, references := CollectFromEntries(entries, references);
      case _ => r := Ok(());
    }
  }

  method CollectFromAll(items: seq<Value>, references0: set<string>) returns (r: Result<(), string>, references: set<string>)
    ensures r.Ok? <==> forall x :: x in items ==> WellFormed(x)
    ensures r.Ok? ==> references == references0 + RefsOfAll(items)
    ensures r.Err? ==> Malformed(r.error)
    decreases items, 0
  {
    references := references0;
    for k := 0 to |items|
      invariant references == references0 + RefsOfAll(items[..k])
      invariant forall x :: x in items[..k] ==> WellFormed(x)
    {
      assert items[k] in items && items[..k + 1] == items[..k] + [items[k]];
      RefsOfMore(items[..k], items[k]);
      r, references := CollectReferences(items[k], references);
      if r.Err? {
        return;
      }
    }
    assert items[..|items|] == items;
    r := Ok(());
  }

  method CollectFromEntry(e: Entry, references0: set<string>) returns (r: Result<(), string>, references: set<string>)
    ensures r.Ok? <==> WellFormed(e.key) && WellFormed(e.value)
    ensures r.Ok? ==> references == references0 + RefsOfEntry(e)
    ensures r.Err? ==> Malformed(r.error)
    decreases e, 0
  {
    r, references := CollectReferences(e.key, references0);
    if r.Ok? {
      r, references := CollectReferences(e.value, references);
    }
  }

  method CollectFromEntries(entries: seq<Entry>, references0: set<string>) returns (r: Result<(), string>, references: set<string>)
    ensures r.Ok? <==> forall e :: e in entries ==> WellFormed(e.key) && WellFormed(e.value)
    ensures r.Ok? ==> references == references0 + RefsOfEntries(entries)
    ensures r.Err? ==> Malformed(r.error)
    decreases entries, 0
  {
    references := references0;
    for k := 0 to |entries|
      invariant references == references0 + RefsOfEntries(entries[..k])
      invariant forall e :: e in entries[..k] ==> WellFormed(e.key) && WellFormed(e.value)
    {
      assert entries[k] in entries && entries[..k + 1] == entries[..k] + [entries[k]];
      RefsOfMoreEntries(entries[..k], entries[k]);
      r, references := CollectFromEntry(entries[k], references);
      if r.Err? {
        return;
      }
    }
    assert entries[..|entries|] == entries;
    r := Ok(());
  }

  // ---- The substitution ----

  type Supplied = map<string, Value>

  // A later entry of an equal key replaces the earlier value in its place.
  function Insert(entries: seq<Entry>, e: Entry): seq<Entry> {
    if entries == [] then [e]
    else if entries[0].key == e.key then [entries[0].(value := e.value)] + entries[1..]
    else [entries[0]] + Insert(entries[1..], e)
  }

  function Collected(entries: seq<Entry>): seq<Entry> {
    if entries == [] then [] else Insert(Collected(entries[..|entries| - 1]), entries[|entries| - 1])
  }

  // The error is the name of a parameter that nothing supplies.
  function Resolve(v: Value, supplied: Supplied): Result<Value, string>
    decreases v, 1
  {
    match v
    case String(s) =>
      var name := ReferenceOf(s);
      if name.None? then Ok(v)
      else if name.value in supplied then Ok(supplied[name.value])
      else Err(name.value)
    case Sequence(items) =>
      var resolved := ResolveAll(items, supplied);
      if resolved.Err? then Err(resolved.error) else Ok(Sequence(resolved.value))
    case Mapping(entries) =>
      var resolved := ResolveEntries(entries, supplied);
      if resolved.Err? then Err(resolved.error) else Ok(Mapping(Collected(resolved.value)))
    case Tagged(_, inner) => Resolve(inner, supplied)
    case _ => Ok(v)
  }

  function ResolveAll(items: seq<Value>, supplied: Supplied): Result<seq<Value>, string>
    decreases items, 0
  {
    if items == [] then Ok([])
    else
      var first := Resolve(items[0], supplied);
      if first.Err? then Err(first.error)
      else
        var rest := ResolveAll(items[1..], supplied);
        if rest.Err? then Err(rest.error) else Ok([first.value] + rest.value)
  }

  function ResolveEntry(e: Entry, supplied: Supplied): Result<Entry, string>
    decreases e, 0
  {
    var key := Resolve(e.key, supplied);
    if key.Err? then Err(key.error)
    else
      var value := Resolve(e.value, supplied);
      if value.Err? then Err(value.error) else Ok(Entry(key.value, value.value))
  }

  function ResolveEntries(entries: seq<Entry>, supplied: Supplied): Result<seq<Entry>, string>
    decreases entries, 0
  {
    if entries == [] then Ok([])
    else
      var first := ResolveEntry(entries[0], supplied);
      if first.Err? then Err(first.error)
      else
        var rest := ResolveEntries(entries[1..], supplied);
        if rest.Err? then Err(rest.error) else Ok([first.value] + rest.value)
  }

  // ---- A value depends on its references only ----

  // Every reference, also behind tags: what the substitution looks at.
  function AllRefs(v: Value): set<string> {
    match v
    case String(s) => if ReferenceOf(s).Some? then {ReferenceOf(s).value} else {}
    case Sequence(items) => set x, r | x in items && r in AllRefs(x) :: r
    case Mapping(entries) => set e, r | e in entries && r in AllRefs(e.key) + AllRefs(e.value) :: r
    case Tagged(_, inner) => AllRefs(inner)
    case _ => {}
  }

  lemma {:induction false} UntaggedRefs(v: Value)
    requires Untagged(v)
    ensures AllRefs(v) == Refs(v)
  {
    match v
    case Sequence(items) =>
      forall x | x in items ensures AllRefs(x) == Refs(x) { UntaggedRefs(x); }
    case Mapping(entries) =>
      forall e | e in entries ensures RefsOfEntry(e) == AllRefs(e.key) + AllRefs(e.value) {
        UntaggedRefs(e.key);
        UntaggedRefs(e.value);
      }
    case _ =>
  }

  predicate Agree(names: set<string>, a: Supplied, b: Supplied) {
    forall n :: n in names ==> (n in a <==> n in b) && (n in a ==> a[n] == b[n])
  }

  /** Two suppliers that agree on the references of a value resolve it alike. */
  lemma {:induction false} ResolveDependsOnRefs(v: Value, a: Supplied, b: Supplied)
    requires Agree(AllRefs(v), a, b)
    ensures Resolve(v, a) == Resolve(v, b)
    decreases v, 1
  {
    match v
    case Sequence(items) =>
      forall x | x in items ensures Agree(AllRefs(x), a, b) {
        assert AllRefs(x) <= AllRefs(v);
      }
      ResolveAllAgrees(items, a, b);
    case Mapping(entries) =>
      forall e | e in entries ensures Agree(AllRefs(e.key), a, b) && Agree(AllRefs(e.value), a, b) {
        assert AllRefs(e.key) + AllRefs(e.value) <= AllRefs(v);
      }
      ResolveEntriesAgrees(entries, a, b);
    case Tagged(_, inner) => ResolveDependsOnRefs(inner, a, b);
    case _ =>
  }

  lemma {:induction false} ResolveAllAgrees(items: seq<Value>, a: Supplied, b: Supplied)
    requires forall x :: x in items ==> Agree(AllRefs(x), a, b)
    ensures ResolveAll(items, a) == ResolveAll(items, b)
    decreases items, 0
  {
    if items != [] {
      ResolveDependsOnRefs(items[0], a, b);
      ResolveAllAgrees(items[1..], a, b);
    }
  }

  lemma {:induction false} ResolveEntryAgrees(e: Entry, a: Supplied, b: Supplied)
    requires Agree(AllRefs(e.key), a, b) && Agree(AllRefs(e.value), a, b)
    ensures ResolveEntry(e, a) == ResolveEntry(e, b)
    decreases e, 0
  {
    ResolveDependsOnRefs(e.key, a, b);
    ResolveDependsOnRefs(e.value, a, b);
  }

  lemma {:induction false} ResolveEntriesAgrees(entries: seq<Entry>, a: Supplied, b: Supplied)
    requires forall e :: e in entries ==> Agree(AllRefs(e.key), a, b) && Agree(AllRefs(e.value), a, b)
    ensures ResolveEntries(entries, a) == ResolveEntries(entries, b)
    decreases entries, 0
  {
    if entries != [] {
      ResolveEntryAgrees(entries[0], a, b);
      ResolveEntriesAgrees(entries[1..], a, b);
    }
  }

  // ---- Resolution succeeds exactly when every reference is supplied ----

  lemma {:induction false} ResolveSucceeds(v: Value, supplied: Supplied)
    ensures Resolve(v, supplied).Ok? <==> AllRefs(v) <= supplied.Keys
    decreases v, 1
  {
    match v
    case Sequence(items) =>
      ResolveAllSucceeds(items, supplied);
      assert forall x, r :: x in items && r in AllRefs(x) ==> r in AllRefs(v);
    case Mapping(entries) =>
      ResolveEntriesSucceeds(entries, supplied);
      assert forall e, r :: e in entries && r in AllRefs(e.key) + AllRefs(e.value) ==> r in AllRefs(v);
    case Tagged(_, inner) => ResolveSucceeds(inner, supplied);
    case _ =>
  }

  lemma {:induction false} ResolveAllSucceeds(items: seq<Value>, supplied: Supplied)
    ensures ResolveAll(items, supplied).Ok? <==> forall x :: x in items ==> AllRefs(x) <= supplied.Keys
    decreases items, 0
  {
    if items != [] {
      ResolveSucceeds(items[0], supplied);
      ResolveAllSucceeds(items[1..], supplied);
      assert items == [items[0]] + items[1..];
    }
  }

  lemma {:induction false} ResolveEntrySucceeds(e: Entry, supplied: Supplied)
    ensures ResolveEntry(e, supplied).Ok? <==> AllRefs(e.key) + AllRefs(e.value) <= supplied.Keys
    decreases e, 0
  {
    ResolveSucceeds(e.key, supplied);
    ResolveSucceeds(e.value, supplied);
  }

  lemma {:induction false} ResolveEntriesSucceeds(entries: seq<Entry>, supplied: Supplied)
    ensures ResolveEntries(entries, supplied).Ok? <==>
            forall e :: e in entries ==> AllRefs(e.key) + AllRefs(e.value) <= supplied.Keys
    decreases entries, 0
  {
    if entries != [] {
      ResolveEntrySucceeds(entries[0], supplied);
      ResolveEntriesSucceeds(entries[1..], supplied);
      assert entries == [entries[0]] + entries[1..];
    }
  }

  // ---- Errors depend on what is bound, not on the values ----

  lemma {:induction false} SameKeysSameError(v: Value, a: Supplied, b: Supplied)
    requires a.Keys == b.Keys && Resolve(v, a).Err?
    ensures Resolve(v, b) == Resolve(v, a)
    decreases v, 1
  {
    match v
    case Sequence(items) => SameKeysSameErrorAll(items, a, b);
    case Mapping(entries) => SameKeysSameErrorEntries(entries, a, b);
    case Tagged(_, inner) => SameKeysSameError(inner, a, b);
    case _ =>
  }

  lemma {:induction false} SameKeysSameErrorAll(items: seq<Value>, a: Supplied, b: Supplied)
    requires a.Keys == b.Keys && ResolveAll(items, a).Err?
    ensures ResolveAll(items, b) == ResolveAll(items, a)
    decreases items, 0
  {
    ResolveSucceeds(items[0], a);
    ResolveSucceeds(items[0], b);
    if Resolve(items[0], a).Err? {
      SameKeysSameError(items[0], a, b);
    } else {
      SameKeysSameErrorAll(items[1..], a, b);
    }
  }

  lemma {:induction false} SameKeysSameErrorEntry(e: Entry, a: Supplied, b: Supplied)
    requires a.Keys == b.Keys && ResolveEntry(e, a).Err?
    ensures ResolveEntry(e, b) == ResolveEntry(e, a)
    decreases e, 0
  {
    ResolveSucceeds(e.key, a);
    ResolveSucceeds(e.key, b);
    if Resolve(e.key, a).Err? {
      SameKeysSameError(e.key, a, b);
    } else {
      SameKeysSameError(e.value, a, b);
    }
  }

  lemma {:induction false} SameKeysSameErrorEntries(entries: seq<Entry>, a: Supplied, b: Supplied)
    requires a.Keys == b.Keys && ResolveEntries(entries, a).Err?
    ensures ResolveEntries(entries, b) == ResolveEntries(entries, a)
    decreases entries, 0
  {
    ResolveEntrySucceeds(entries[0], a);
    ResolveEntrySucceeds(entries[0], b);
    if ResolveEntry(entries[0], a).Err? {
      SameKeysSameErrorEntry(entries[0], a, b);
    } else {
      SameKeysSameErrorEntries(entries[1..], a, b);
    }
  }

  // ---- Part by part ----

  lemma {:induction false} ResolveAllAt(items: seq<Value>, supplied: Supplied)
    ensures ResolveAll(items, supplied).Ok? <==> forall i :: 0 <= i < |items| ==> Resolve(items[i], supplied).Ok?
    ensures ResolveAll(items, supplied).Ok? ==>
              var r := ResolveAll(items, supplied).value;
              |r| == |items| && forall i :: 0 <= i < |items| ==> Resolve(items[i], supplied) == Ok(r[i])
    decreases |items|
  {
    if items != [] {
      ResolveAllAt(items[1..], supplied);
    }
  }

  lemma {:induction false} ResolveEntriesAt(entries: seq<Entry>, supplied: Supplied)
    ensures ResolveEntries(entries, supplied).Ok? <==>
            forall i :: 0 <= i < |entries| ==> ResolveEntry(entries[i], supplied).Ok?
    ensures ResolveEntries(entries, supplied).Ok? ==>
              var r := ResolveEntries(entries, supplied).value;
              |r| == |entries| && forall i :: 0 <= i < |entries| ==> ResolveEntry(entries[i], supplied) == Ok(r[i])
    decreases |entries|
  {
    if entries != [] {
      ResolveEntriesAt(entries[1..], supplied);
    }
  }

  // ---- The ordered collection of entries ----

  predicate KeysDiffer(entries: seq<Entry>) {
    forall i, j :: 0 <= i < j < |entries| ==> entries[i].key != entries[j].key
  }

  lemma {:induction false} InsertNewKey(entries: seq<Entry>, e: Entry)
    requires forall x :: x in entries ==> x.key != e.key
    ensures Insert(entries, e) == entries + [e]
  {
    if entries != [] {
      InsertNewKey(entries[1..], e);
      assert entries == [entries[0]] + entries[1..];
    }
  }

  lemma {:induction false} CollectedDistinct(entries: seq<Entry>)
    requires KeysDiffer(entries)
    ensures Collected(entries) == entries
  {
    if entries != [] {
      var n := |entries| - 1;
      CollectedDistinct(entries[..n]);
      InsertNewKey(entries[..n], entries[n]);
      assert entries == entries[..n] + [entries[n]];
    }
  }

  lemma {:induction false} InsertLength(entries: seq<Entry>, e: Entry)
    ensures |Insert(entries, e)| == |entries| || Insert(entries, e) == entries + [e]
  {
    if entries != [] {
      InsertLength(entries[1..], e);
      assert entries == [entries[0]] + entries[1..];
    }
  }

  // Collecting entries either merges some of them or changes nothing.
  lemma {:induction false} CollectedFull(entries: seq<Entry>)
    ensures |Collected(entries)| < |entries| || Collected(entries) == entries
  {
    if entries != [] {
      var n := |entries| - 1;
      CollectedFull(entries[..n]);
      InsertLength(Collected(entries[..n]), entries[n]);
      assert entries == entries[..n] + [entries[n]];
    }
  }

  // ---- When a value resolves to itself ----

  // What stands behind the tags of a value.
  function Behind(v: Value): (w: Value)
    ensures !w.Tagged?
  {
    if v.Tagged? then Behind(v.inner) else v
  }

  lemma {:induction false} BehindTags(v: Value, supplied: Supplied)
    ensures Resolve(v, supplied) == Resolve(Behind(v), supplied) && AllRefs(v) == AllRefs(Behind(v))
  {
    if v.Tagged? {
      BehindTags(v.inner, supplied);
    }
  }

  // Every tagged part is just what is supplied for the reference behind its tags.
  predicate SuppliedAsIs(v: Value, supplied: Supplied) {
    match v
    case Tagged(_, _) =>
      var w := Behind(v);
      w.String? && ReferenceOf(w.s).Some? && ReferenceOf(w.s).value in supplied && supplied[ReferenceOf(w.s).value] == v
    case Sequence(items) => forall x :: x in items ==> SuppliedAsIs(x, supplied)
    case Mapping(entries) => forall e :: e in entries ==> SuppliedAsIs(e.key, supplied) && SuppliedAsIs(e.value, supplied)
    case _ => true
  }

  lemma SelfAll(items: seq<Value>, supplied: Supplied)
    ensures ResolveAll(items, supplied) == Ok(items) <==>
            forall i :: 0 <= i < |items| ==> Resolve(items[i], supplied) == Ok(items[i])
  {
    ResolveAllAt(items, supplied);
    if ResolveAll(items, supplied).Ok? && forall i :: 0 <= i < |items| ==> Resolve(items[i], supplied) == Ok(items[i]) {
      assert ResolveAll(items, supplied).value == items;
    }
  }

  lemma SelfEntries(entries: seq<Entry>, supplied: Supplied)
    ensures ResolveEntries(entries, supplied) == Ok(entries) <==>
            forall i :: 0 <= i < |entries| ==> ResolveEntry(entries[i], supplied) == Ok(entries[i])
  {
    ResolveEntriesAt(entries, supplied);
    if ResolveEntries(entries, supplied).Ok? &&
       forall i :: 0 <= i < |entries| ==> ResolveEntry(entries[i], supplied) == Ok(entries[i]) {
      assert ResolveEntries(entries, supplied).value == entries;
    }
  }

  lemma SelfMapping(entries: seq<Entry>, supplied: Supplied)
    requires KeysDiffer(entries)
    ensures Resolve(Mapping(entries), supplied) == Ok(Mapping(entries)) <==> ResolveEntries(entries, supplied) == Ok(entries)
  {
    CollectedDistinct(entries);
    ResolveEntriesAt(entries, supplied);
    if ResolveEntries(entries, supplied).Ok? {
      CollectedFull(ResolveEntries(entries, supplied).value);
    }
  }

  lemma TaggedStaysExactly(v: Value, supplied: Supplied)
    requires v.Tagged?
    ensures Resolve(v, supplied) == Ok(v) <==> SuppliedAsIs(v, supplied)
  {
    BehindTags(v, supplied);
  }

  lemma {:induction false} StaysExactly(v: Value, supplied: Supplied)
    requires DistinctKeys(v) && Refs(v) == {}
    ensures Resolve(v, supplied) == Ok(v) <==> SuppliedAsIs(v, supplied)
  {
    match v
    case Tagged(_, _) => TaggedStaysExactly(v, supplied);
    case Sequence(items) =>
      forall i | 0 <= i < |items|
        ensures Resolve(items[i], supplied) == Ok(items[i]) <==> SuppliedAsIs(items[i], supplied)
      {
        assert items[i] in items && Refs(items[i]) <= Refs(v);
        StaysExactly(items[i], supplied);
      }
      SelfAll(items, supplied);
    case Mapping(entries) =>
      forall i | 0 <= i < |entries|
        ensures ResolveEntry(entries[i], supplied) == Ok(entries[i]) <==>
                SuppliedAsIs(entries[i].key, supplied) && SuppliedAsIs(entries[i].value, supplied)
      {
        assert entries[i] in entries && RefsOfEntry(entries[i]) <= Refs(v);
        StaysExactly(entries[i].key, supplied);
        StaysExactly(entries[i].value, supplied);
      }
      SelfEntries(entries, supplied);
      SelfMapping(entries, supplied);
    case _ =>
  }

  // What is supplied for the references of a value carries no tag.
  predicate UntaggedFor(v: Value, supplied: Supplied) {
    forall n :: n in AllRefs(v) && n in supplied ==> Untagged(supplied[n])
  }

  lemma {:induction false} AsIsWhenUntagged(v: Value, supplied: Supplied)
    ensures Untagged(v) ==> SuppliedAsIs(v, supplied)
    ensures UntaggedFor(v, supplied) && SuppliedAsIs(v, supplied) ==> Untagged(v)
  {
    match v
    case Tagged(_, _) => BehindTags(v, supplied);
    case Sequence(items) =>
      forall x | x in items
        ensures Untagged(x) ==> SuppliedAsIs(x, supplied)
        ensures UntaggedFor(v, supplied) && SuppliedAsIs(x, supplied) ==> Untagged(x)
      {
        assert AllRefs(x) <= AllRefs(v);
        AsIsWhenUntagged(x, supplied);
      }
    case Mapping(entries) =>
      forall e | e in entries
        ensures Untagged(e.key) && Untagged(e.value) ==> SuppliedAsIs(e.key, supplied) && SuppliedAsIs(e.value, supplied)
        ensures UntaggedFor(v, supplied) && SuppliedAsIs(e.key, supplied) && SuppliedAsIs(e.value, supplied) ==>
                  Untagged(e.key) && Untagged(e.value)
      {
        assert AllRefs(e.key) + AllRefs(e.value) <= AllRefs(v);
        AsIsWhenUntagged(e.key, supplied);
        AsIsWhenUntagged(e.value, supplied);
      }
    case _ =>
  }

  /** A value in which the static collection finds no reference resolves to itself exactly when each of
      its tagged parts is supplied as it stands. So an untagged value always does, and a tagged one
      never does unless a supplied value carries the tag. */
  lemma AuthoredStaysExactly(v: Value, supplied: Supplied)
    requires DistinctKeys(v) && Refs(v) == {}
    ensures Resolve(v, supplied) == Ok(v) <==> SuppliedAsIs(v, supplied)
    ensures Untagged(v) ==> Resolve(v, supplied) == Ok(v)
    ensures UntaggedFor(v, supplied) ==> (Resolve(v, supplied) == Ok(v) <==> Untagged(v))
  {
    StaysExactly(v, supplied);
    AsIsWhenUntagged(v, supplied);
  }

  // The case that needs the condition: a default written as the tagged reference to itself.
  lemma TaggedDefaultStays(tag: string, name: string)
    ensures var v := Tagged(tag, String(PREFIX + name)); Resolve(v, map[name := v]) == Ok(v) && !Untagged(v)
  {
    var s := PREFIX + name;
    assert PREFIX <= s && s[|PREFIX|..] == name;
    assert Resolve(Tagged(tag, String(s)), map[name := Tagged(tag, String(s))])
        == Resolve(String(s), map[name := Tagged(tag, String(s))]);
  }

  predicate Plain(v: Value) {
    Untagged(v) && AllRefs(v) == {} && DistinctKeys(v)
  }

  lemma PlainResolvesToItself(v: Value, supplied: Supplied)
    requires Plain(v)
    ensures Resolve(v, supplied) == Ok(v)
  {
    UntaggedRefs(v);
    AuthoredStaysExactly(v, supplied);
  }

  // ---- A reference tells, unless a later entry replaces it ----

  // The keys of every mapping are plain and distinct.
  predicate StableKeys(v: Value) {
    match v
    case Sequence(items) => forall x :: x in items ==> StableKeys(x)
    case Mapping(entries) => KeysDiffer(entries) && forall e :: e in entries ==> Plain(e.key) && StableKeys(e.value)
    case Tagged(_, inner) => StableKeys(inner)
    case _ => true
  }

  lemma StableEntries(entries: seq<Entry>, supplied: Supplied)
    requires StableKeys(Mapping(entries)) && ResolveEntries(entries, supplied).Ok?
    ensures var r := ResolveEntries(entries, supplied).value;
            && Resolve(Mapping(entries), supplied) == Ok(Mapping(r))
            && |r| == |entries|
            && forall i :: 0 <= i < |entries| ==> Resolve(entries[i].value, supplied) == Ok(r[i].value)
  {
    ResolveEntriesAt(entries, supplied);
    var r := ResolveEntries(entries, supplied).value;
    forall i | 0 <= i < |entries|
      ensures r[i].key == entries[i].key && Resolve(entries[i].value, supplied) == Ok(r[i].value)
    {
      assert entries[i] in entries && ResolveEntry(entries[i], supplied) == Ok(r[i]);
      PlainResolvesToItself(entries[i].key, supplied);
    }
    CollectedDistinct(r);
  }

  /** Where keys stay as they are written, a value resolves differently for different values of any of its
      references, also behind tags. */
  lemma {:induction false} ResolveTells(v: Value, a: Supplied, b: Supplied, n: string)
    requires StableKeys(v) && n in AllRefs(v) && n in a && n in b && a[n] != b[n]
    requires Resolve(v, a).Ok? && Resolve(v, b).Ok?
    ensures Resolve(v, a) != Resolve(v, b)
  {
    match v
    case Sequence(items) =>
      var i :| 0 <= i < |items| && n in AllRefs(items[i]);
      assert items[i] in items;
      ResolveAllAt(items, a);
      ResolveAllAt(items, b);
      ResolveTells(items[i], a, b, n);
    case Mapping(entries) =>
      var e :| e in entries && n in AllRefs(e.key) + AllRefs(e.value);
      var i :| 0 <= i < |entries| && entries[i] == e;
      assert Plain(e.key);
      StableEntries(entries, a);
      StableEntries(entries, b);
      ResolveTells(e.value, a, b, n);
    case Tagged(_, inner) => ResolveTells(inner, a, b, n);
    case _ =>
  }

  // A tagged key can resolve to an earlier one, and its value replaces the reference there.
  lemma ReplacedReferenceIsSilent(tag: string, name: string, supplied: Supplied)
    requires name in supplied
    ensures var v := Mapping([Entry(String("k"), String(PREFIX + name)), Entry(Tagged(tag, String("k")), Null)]);
            name in AllRefs(v) && DistinctKeys(v) && Resolve(v, supplied) == Ok(Mapping([Entry(String("k"), Null)]))
  {
    var s := PREFIX + name;
    assert PREFIX <= s && s[|PREFIX|..] == name;
    var first, second := Entry(String("k"), String(s)), Entry(Tagged(tag, String("k")), Null);
    var entries := [first, second];
    assert name in AllRefs(Mapping(entries)) by {
      assert first in entries && name in AllRefs(first.value);
      assert name in AllRefs(first.key) + AllRefs(first.value);
    }
    assert ReferenceOf("k").None? by {
      assert PREFIX[0] != "k"[0];
    }
    assert Resolve(Tagged(tag, String("k")), supplied) == Resolve(String("k"), supplied) == Ok(String("k"));
    ResolveEntriesAt(entries, supplied);
    var before, after := Entry(String("k"), supplied[name]), Entry(String("k"), Null);
    assert ResolveEntry(first, supplied) == Ok(before) && ResolveEntry(second, supplied) == Ok(after);
    assert ResolveEntries(entries, supplied).value == [before, after];
    assert [before][..0] == [] && [before, after][..1] == [before];
    assert Collected([before]) == [before];
    assert Insert([before], after) == [after];
  }

  // ---- Substitution removes every tag ----

  predicate UntaggedEntries(entries: seq<Entry>) {
    forall e :: e in entries ==> Untagged(e.key) && Untagged(e.value)
  }

  lemma {:induction false} InsertUntagged(entries: seq<Entry>, e: Entry)
    requires UntaggedEntries(entries) && Untagged(e.key) && Untagged(e.value)
    ensures UntaggedEntries(Insert(entries, e))
  {
    if entries != [] {
      assert entries[0] in entries;
      InsertUntagged(entries[1..], e);
    }
  }

  lemma {:induction false} CollectedUntagged(entries: seq<Entry>)
    requires UntaggedEntries(entries)
    ensures UntaggedEntries(Collected(entries))
  {
    if entries != [] {
      var n := |entries| - 1;
      assert entries[n] in entries;
      CollectedUntagged(entries[..n]);
      InsertUntagged(Collected(entries[..n]), entries[n]);
    }
  }

  /** Substitution removes every authored tag: the result is untagged unless a supplied value
      that the value refers to carries a tag. */
  lemma {:induction false} ResolvedIsUntagged(v: Value, supplied: Supplied)
    requires Resolve(v, supplied).Ok?
    ensures Untagged(Resolve(v, supplied).value) || !UntaggedFor(v, supplied)
  {
    match v
    case Sequence(items) =>
      ResolveAllAt(items, supplied);
      forall i | 0 <= i < |items|
        ensures Untagged(ResolveAll(items, supplied).value[i]) || !UntaggedFor(v, supplied)
      {
        assert items[i] in items && AllRefs(items[i]) <= AllRefs(v);
        ResolvedIsUntagged(items[i], supplied);
      }
    case Mapping(entries) =>
      ResolveEntriesAt(entries, supplied);
      var r := ResolveEntries(entries, supplied).value;
      forall i | 0 <= i < |entries|
        ensures (Untagged(r[i].key) && Untagged(r[i].value)) || !UntaggedFor(v, supplied)
      {
        var e := entries[i];
        assert e in entries && ResolveEntry(e, supplied) == Ok(r[i]) && AllRefs(e.key) + AllRefs(e.value) <= AllRefs(v);
        ResolvedIsUntagged(e.key, supplied);
        ResolvedIsUntagged(e.value, supplied);
      }
      if UntaggedFor(v, supplied) {
        CollectedUntagged(r);
      }
    case Tagged(_, inner) => ResolvedIsUntagged(inner, supplied);
    case _ =>
  }
}
