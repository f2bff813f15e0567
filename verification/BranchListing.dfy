/** crates/ostrom-core/src/dispatch.rs, lines 18-133: whether a branch exists is answered from the pages
    of a remote listing, and never in the negative before the listing is exhausted. */
module BranchListing {
  import opened Wrappers

  datatype Branch = Branch(name: string, headSha: string)
  {
    predicate Valid() {
      && name != ""
      && |headSha| == 40
      && forall c :: c in headSha ==> '0' <= c <= '9' || 'a' <= c <= 'f' || 'A' <= c <= 'F'
    }
  }

  type Page = seq<Branch>

  datatype Answer = Answer(pageCount: nat, branchCount: nat, matched: Option<Branch>)

  datatype Detail = Malformed(page: nat) | LimitReached | NotRead(page: nat)

  datatype ListingFault = ListingFault(pageCount: nat, branchCount: nat, detail: Detail)

  predicate AllValid(page: Page) {
    forall b :: b in page ==> b.Valid()
  }

  predicate WellFormed(page: Page, size: nat) {
    |page| <= size && AllValid(page)
  }

  function Flatten(pages: seq<Page>): Page {
    if pages == [] then [] else Flatten(pages[..|pages| - 1]) + pages[|pages| - 1]
  }

  // The search goes past page `k`: it is full, and not the last that may be read.
  predicate Continues(pages: seq<Page>, size: nat, limit: nat, k: nat)
    requires k < |pages|
  {
    AllValid(pages[k]) && |pages[k]| == size && k + 1 != limit
  }

  // Page `k` is the first short one, with only full pages before it.
  ghost predicate Exhausts(pages: seq<Page>, size: nat, limit: nat, k: nat) {
    && k < |pages| && WellFormed(pages[k], size) && |pages[k]| < size
    && forall j :: 0 <= j < k ==> Continues(pages, size, limit, j)
  }

  // The first branch of the name.
  ghost predicate FirstNamed(branches: Page, expected: string, matched: Option<Branch>) {
    match matched
    case None => forall b :: b in branches ==> b.name != expected
    case Some(b) => b.name == expected && exists i: nat :: FirstNamedAt(branches, expected, b, i)
  }

  ghost predicate FirstNamedAt(branches: Page, expected: string, b: Branch, i: nat) {
    i < |branches| && branches[i] == b && forall j :: 0 <= j < i ==> branches[j].name != expected
  }

  // What stopped the listing at its first page that is neither full nor short.
  ghost predicate Stopped(pages: seq<Page>, size: nat, limit: nat, f: ListingFault) {
    match f.detail
    case Malformed(page) =>
      && f.pageCount + 1 == page <= |pages|
      && (forall j :: 0 <= j < f.pageCount ==> Continues(pages, size, limit, j))
      && !WellFormed(pages[f.pageCount], size)
      && f.branchCount == |Flatten(pages[..f.pageCount])|
    case LimitReached =>
      && 0 < f.pageCount == limit <= |pages|
      && (forall j :: 0 <= j < limit - 1 ==> Continues(pages, size, limit, j))
      && AllValid(pages[limit - 1]) && |pages[limit - 1]| == size
      && f.branchCount == |Flatten(pages[..limit])|
    case NotRead(page) =>
      && page == f.pageCount + 1 && f.pageCount == |pages|
      && (forall j :: 0 <= j < |pages| ==> Continues(pages, size, limit, j))
      && f.branchCount == |Flatten(pages)|
  }

  // A page that stops the search decides whether it is exhausted.
  lemma StopsAt(pages: seq<Page>, size: nat, limit: nat, index: nat)
    requires index < |pages| && !Continues(pages, size, limit, index)
    requires forall j :: 0 <= j < index ==> Continues(pages, size, limit, j)
    ensures forall k: nat :: Exhausts(pages, size, limit, k) ==> k == index
  {
    forall k: nat | Exhausts(pages, size, limit, k)
      ensures k == index
    {
      assert k < index ==> Continues(pages, size, limit, k);
    }
  }

  method FindNamed(branches: Page, expected: string) returns (matched: Option<Branch>)
    ensures FirstNamed(branches, expected, matched)
  {
    for i := 0 to |branches|
      invariant forall j :: 0 <= j < i ==> branches[j].name != expected
    {
      if branches[i].name == expected {
        assert FirstNamedAt(branches, expected, branches[i], i);
        return Some(branches[i]);
      }
    }
    matched := None;
  }

  /** Answers exactly when some page proves the listing exhausted. The name is then looked for on
      every page given, also on those after the short one, which are neither checked nor
      counted. */
  method ResolveExactBranch(pages: seq<Page>, expected: string, size: nat, limit: nat) returns (r: Result<Answer, ListingFault>)
    ensures r.Ok? <==> exists k: nat :: Exhausts(pages, size, limit, k)
    ensures r.Ok? ==> r.value.pageCount == |pages| && FirstNamed(Flatten(pages), expected, r.value.matched)
    ensures forall k: nat :: Exhausts(pages, size, limit, k) ==> r.Ok? && r.value.branchCount == |Flatten(pages[..k + 1])|
    ensures r.Err? ==> Stopped(pages, size, limit, r.error)
  {
    var branchCount := 0;
    for index := 0 to |pages|
      invariant branchCount == |Flatten(pages[..index])|
      invariant forall j :: 0 <= j < index ==> Continues(pages, size, limit, j)
    {
      var page := pages[index];
      if !Continues(pages, size, limit, index) {
        StopsAt(pages, size, limit, index);
      }
      if |page| > size || !AllValid(page) {
        return Err(ListingFault(index, branchCount, Malformed(index + 1)));
      }
      assert pages[..index + 1][..index] == pages[..index];
      branchCount := branchCount + |page|;
      if |page| < size {
        assert Exhausts(pages, size, limit, index);
        var matched := FindNamed(Flatten(pages), expected);
        return Ok(Answer(|pages|, branchCount, matched));
      }
      if index + 1 == limit {
        return Err(ListingFault(limit, branchCount, LimitReached));
      }
    }
    assert pages[..|pages|] == pages;
    assert forall k: nat :: k < |pages| && Continues(pages, size, limit, k) ==> !Exhausts(pages, size, limit, k);
    r := Err(ListingFault(|pages|, branchCount, NotRead(|pages| + 1)));
  }

  // ---- Against the remote listing ----

  // How the remote pages a listing: full pages, and a short one at the end.
  function Paginate(branches: Page, size: nat): (pages: seq<Page>)
    requires size > 0
    ensures pages != []
  {
    if |branches| < size then [branches] else [branches[..size]] + Paginate(branches[size..], size)
  }

  lemma {:induction false} FlattenFromFront(first: Page, rest: seq<Page>)
    ensures Flatten([first] + rest) == first + Flatten(rest)
  {
    var pages := [first] + rest;
    if rest == [] {
      assert pages[..0] == [];
    } else {
      assert pages[..|pages| - 1] == [first] + rest[..|rest| - 1];
      FlattenFromFront(first, rest[..|rest| - 1]);
    }
  }

  lemma {:induction false} PaginateFlattens(branches: Page, size: nat)
    requires size > 0
    ensures Flatten(Paginate(branches, size)) == branches
    decreases |branches|
  {
    if |branches| < size {
      FlattenFromFront(branches, []);
    } else {
      PaginateFlattens(branches[size..], size);
      FlattenFromFront(branches[..size], Paginate(branches[size..], size));
      assert branches == branches[..size] + branches[size..];
    }
  }

  // Every page is full but the last, which is short.
  predicate Paged(pages: seq<Page>, size: nat) {
    && pages != [] && |pages[|pages| - 1]| < size
    && forall j :: 0 <= j < |pages| - 1 ==> |pages[j]| == size
  }

  lemma PagedFront(first: Page, rest: seq<Page>, size: nat)
    requires |first| == size && Paged(rest, size)
    ensures Paged([first] + rest, size)
  {
  }

  lemma {:induction false} PaginateShape(branches: Page, size: nat)
    requires size > 0
    ensures Paged(Paginate(branches, size), size)
    decreases |branches|
  {
    if |branches| >= size {
      PaginateShape(branches[size..], size);
      PagedFront(branches[..size], Paginate(branches[size..], size), size);
    }
  }

  lemma {:induction false} PagesAreValid(pages: seq<Page>)
    requires AllValid(Flatten(pages))
    ensures forall k :: 0 <= k < |pages| ==> AllValid(pages[k])
  {
    if pages != [] {
      var n := |pages| - 1;
      assert forall b :: b in pages[n] ==> b in Flatten(pages);
      assert forall b :: b in Flatten(pages[..n]) ==> b in Flatten(pages);
      PagesAreValid(pages[..n]);
      assert forall k :: 0 <= k < n ==> pages[k] == pages[..n][k];
    }
  }

  /** Reading the first `n` pages of the remote's listing gives an answer exactly when that is all of
      them, within the limit. */
  lemma AnswersExactlyOnWholeListing(branches: Page, size: nat, limit: nat, n: nat)
    requires size > 0 && AllValid(branches) && n <= |Paginate(branches, size)|
    ensures var all := Paginate(branches, size);
            (exists k: nat :: Exhausts(all[..n], size, limit, k)) <==> n == |all| && (limit == 0 || |all| <= limit)
    ensures Flatten(Paginate(branches, size)) == branches
  {
    var all := Paginate(branches, size);
    PaginateFlattens(branches, size);
    PaginateShape(branches, size);
    PagesAreValid(all);
    assert 0 < limit <= n ==> !Continues(all[..n], size, limit, limit - 1);
    if k: nat :| Exhausts(all[..n], size, limit, k) {
      assert all[..n][k] == all[k];
    }
    if n == |all| && (limit == 0 || |all| <= limit) {
      assert Exhausts(all[..n], size, limit, n - 1);
    }
  }

  /** The answer about a remote listing is the truth about it: no match is reported only for a
      name the remote does not have, and every branch has been counted. */
  method AskRemote(branches: Page, expected: string, size: nat, limit: nat, n: nat) returns (r: Result<Answer, ListingFault>)
    requires size > 0 && AllValid(branches) && n <= |Paginate(branches, size)|
    ensures r.Ok? <==> n == |Paginate(branches, size)| && (limit == 0 || n <= limit)
    ensures r.Ok? ==> FirstNamed(branches, expected, r.value.matched) && r.value.branchCount == |branches|
  {
    var pages := Paginate(branches, size)[..n];
    AnswersExactlyOnWholeListing(branches, size, limit, n);
    r := ResolveExactBranch(pages, expected, size, limit);
    if r.Ok? {
      assert pages == Paginate(branches, size);
      ghost var k: nat :| Exhausts(pages, size, limit, k);
      PaginateFlattens(branches, size);
    PaginateShape(branches, size);
      assert pages[..k + 1] == pages;
    }
  }

  // ---- What the answer depends on ----

  lemma {:induction false} FlattenConcat(a: seq<Page>, b: seq<Page>)
    ensures Flatten(a + b) == Flatten(a) + Flatten(b)
    decreases |b|
  {
    if b == [] {
      assert a + b == a;
    } else {
      var n := |b| - 1;
      assert (a + b)[..|a + b| - 1] == a + b[..n];
      FlattenConcat(a, b[..n]);
    }
  }

  predicate Occurs(branches: Page, expected: string) {
    exists b :: b in branches && b.name == expected
  }

  // What the search for the name answers on these pages.
  ghost predicate Answers(pages: seq<Page>, expected: string, matched: Option<Branch>) {
    FirstNamed(Flatten(pages), expected, matched)
  }

  lemma AnswerIsUnique(branches: Page, expected: string, x: Option<Branch>, y: Option<Branch>)
    requires FirstNamed(branches, expected, x) && FirstNamed(branches, expected, y)
    ensures x == y
  {
    if x.Some? && y.Some? {
      var i: nat :| FirstNamedAt(branches, expected, x.value, i);
      var j: nat :| FirstNamedAt(branches, expected, y.value, j);
      assert i == j;
    }
  }

  lemma FirstNamedInFront(front: Page, back: Page, expected: string, x: Option<Branch>)
    requires FirstNamed(front, expected, x)
    ensures x.Some? ==> FirstNamed(front + back, expected, x)
  {
    if x.Some? {
      var i: nat :| FirstNamedAt(front, expected, x.value, i);
      assert FirstNamedAt(front + back, expected, x.value, i);
    }
  }

  // Later pages leave the answer alone when the name was found before, or is not on them.
  lemma LaterPagesDecide(checked: seq<Page>, later: seq<Page>, expected: string, x: Option<Branch>, y: Option<Branch>)
    requires Answers(checked, expected, x) && Answers(checked + later, expected, y)
    ensures x == y <==> Occurs(Flatten(checked), expected) || !Occurs(Flatten(later), expected)
  {
    var front, back := Flatten(checked), Flatten(later);
    FlattenConcat(checked, later);
    if Occurs(front, expected) {
      FirstNamedInFront(front, back, expected, x);
      AnswerIsUnique(front + back, expected, x, y);
    } else if Occurs(back, expected) {
      var b :| b in back && b.name == expected;
      assert b in front + back;
    }
  }

  // With these later pages the answer is another one.
  ghost predicate Overturned(checked: seq<Page>, later: seq<Page>, expected: string, x: Option<Branch>, y: Option<Branch>) {
    Answers(checked, expected, x) && Answers(checked + later, expected, y) && x != y
  }

  // Whatever follows the page that proves exhaustion, the answer is the same.
  ghost predicate DependsOnCheckedOnly(checked: seq<Page>, expected: string) {
    forall later, x, y :: !Overturned(checked, later, expected, x, y)
  }

  /** The answer depends on the checked pages alone exactly when the name occurs on one of them: a negative
      from them can be overturned by a page that nothing has checked. */
  lemma CheckedPagesDecideExactly(checked: seq<Page>, expected: string)
    ensures DependsOnCheckedOnly(checked, expected) <==> Occurs(Flatten(checked), expected)
  {
    forall later, x, y | Answers(checked, expected, x) && Answers(checked + later, expected, y)
      ensures Occurs(Flatten(checked), expected) ==> !Overturned(checked, later, expected, x, y)
    {
      LaterPagesDecide(checked, later, expected, x, y);
    }
    if !Occurs(Flatten(checked), expected) {
      var found := Branch(expected, "");
      var later: seq<Page> := [[found]];
      FlattenConcat(checked, later);
      assert later[..0] == [];
      assert Flatten(later) == [found];
      assert FirstNamedAt(Flatten(checked + later), expected, found, |Flatten(checked)|);
      assert Overturned(checked, later, expected, None, Some(found));
    }
  }

  // The page that proves exhaustion is found whatever follows it.
  lemma LaterPagesKeepExhaustion(pages: seq<Page>, later: seq<Page>, size: nat, limit: nat, k: nat)
    requires Exhausts(pages, size, limit, k)
    ensures Exhausts(pages[..k + 1] + later, size, limit, k)
  {
    var other := pages[..k + 1] + later;
    forall j | 0 <= j < k
      ensures Continues(other, size, limit, j)
    {
      assert Continues(pages, size, limit, j);
    }
  }

  // A branch found on a checked page has a name and a head of forty hexadecimal digits.
  lemma CheckedMatchIsSound(pages: seq<Page>, expected: string, size: nat, limit: nat, k: nat, b: Branch)
    requires Exhausts(pages, size, limit, k) && Answers(pages[..k + 1], expected, Some(b))
    ensures b.name == expected != "" && |b.headSha| == 40
    ensures forall c :: c in b.headSha ==> c in "0123456789abcdefABCDEF"
  {
    forall j | 0 <= j < k + 1
      ensures AllValid(pages[j])
    {
      assert j < k ==> Continues(pages, size, limit, j);
    }
    ValidPagesFlatten(pages[..k + 1]);
    assert b in Flatten(pages[..k + 1]);
    forall c | c in b.headSha
      ensures c in "0123456789abcdefABCDEF"
    {
      assert b.Valid();
      HexDigitListed(c);
    }
  }

  lemma HexDigitListed(c: char)
    requires '0' <= c <= '9' || 'a' <= c <= 'f' || 'A' <= c <= 'F'
    ensures c in "0123456789abcdefABCDEF"
  {
    var digits := "0123456789abcdefABCDEF";
    if c <= '9' {
      assert digits[(c - '0') as int] == c;
    } else if 'a' <= c {
      assert digits[10 + (c - 'a') as int] == c;
    } else {
      assert digits[16 + (c - 'A') as int] == c;
    }
  }

  lemma {:induction false} ValidPagesFlatten(pages: seq<Page>)
    requires forall j :: 0 <= j < |pages| ==> AllValid(pages[j])
    ensures AllValid(Flatten(pages))
  {
    if pages != [] {
      ValidPagesFlatten(pages[..|pages| - 1]);
    }
  }

  // The least case: a branch on a page after the short one is matched without being checked or counted.
  method UncheckedPageAnswers(b: Branch) returns (r: Result<Answer, ListingFault>)
    ensures r == Ok(Answer(2, 0, Some(b)))
  {
    var pages: seq<Page> := [[], [b]];
    assert pages[..1] == [[]] && pages[..1][..0] == [];
    assert Flatten(pages[..1]) == [];
    assert Flatten(pages) == [b];
    assert Exhausts(pages, 1, 0, 0);
    r := ResolveExactBranch(pages, b.name, 1, 0);
  }
}
