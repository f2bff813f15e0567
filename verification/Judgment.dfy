/** crates/ostrom-checks/src/judgment.rs, lines 68-242: a judgment collects its evidence with a
    freshness bound that already covers everything the evidence itself cites. */
module Judgment {
  import opened Wrappers
  import opened Receipts

  // What the judge is shown of one piece of evidence.
  datatype BundleItem = BundleItem(
    name: string,
    digest: string,
    basis: Basis,
    verdict: Verdict,
    evidence: seq<Evidence>,
    because: seq<Clause>,
    judgedBy: Option<JudgeStamp>)

  // The least of `bound` and every recorded bound.
  function LeastBound(evidence: seq<Evidence>, bound: Instant): (r: Instant)
    ensures r <= bound
    ensures forall e :: e in evidence && e.freshUntil.Some? ==> r <= e.freshUntil.value
    ensures r == bound || exists e :: e in evidence && e.freshUntil == Some(r)
  {
    if evidence == [] then bound
    else
      var rest := LeastBound(evidence[1..], bound);
      var first := evidence[0].freshUntil;
      if first.Some? && first.value < rest then first.value else rest
  }

  // How far the receipt can be relied on: its own freshness, and for a judgment no
  // longer than its evidence.
  function FreshUntil(r: Receipt, ownBound: Instant): Instant {
    if r.basis == Judged then LeastBound(r.evidence, ownBound) else ownBound
  }

  // Everything a citation depends on. `selectFault` is the catalogue's refusal to
  // select a check, if any.
  datatype Context = Context(
    digest: DigestFn,
    selectFault: string -> Option<string>,
    resolved: map<string, ResolvedCheck>,
    journal: Journal,
    now: Instant)

  /** The citation of one check, or the fault that stops the judgment. */
  function Cite(ctx: Context, from: string): Result<(Evidence, BundleItem), string> {
    if ctx.selectFault(from).Some? then Err(ctx.selectFault(from).value)
    else if from !in ctx.resolved then Err("unresolved_evidence")
    else
      var source := ctx.resolved[from];
      match LatestAttempt(ctx.journal, from)
      case None => Err("evidence_unavailable")
      case Some(r) =>
        if StateOf(ctx.digest, source, ctx.journal, ctx.now) == Stale then Err("evidence_stale")
        else if !Stamped(source, r) || !WellFormed(r) || r.verdict.None? then Err("evidence_unavailable")
        else
          match ExpiresAt(r.observedAt, source.freshForSeconds)
          case None => Err("evidence_unavailable")
          case Some(ownBound) =>
            Ok((Evidence(from, ctx.digest(r), Some(FreshUntil(r, ownBound))),
                BundleItem(from, ctx.digest(r), r.basis, r.verdict.value, r.evidence, r.because, r.judgedBy)))
  }

  // The newest verdict of the cited check, if it has one, still holds.
  ghost predicate StillHolds(ctx: Context, from: string) {
    && from in ctx.resolved
    && forall j: nat :: NewestVerdict(ctx.resolved[from], ctx.journal, j) ==>
         !NoLongerHolds(ctx.digest, ctx.resolved[from], ctx.journal, ctx.now, ctx.journal[j])
  }

  lemma StaleMeansGone(ctx: Context, from: string)
    requires from in ctx.resolved
    ensures StateOf(ctx.digest, ctx.resolved[from], ctx.journal, ctx.now) == Stale <==> !StillHolds(ctx, from)
  {
    var source := ctx.resolved[from];
    StateExactly(ctx.digest, source, ctx.journal, ctx.now);
    if LatestVerdict(ctx.journal, source).Some? {
      var k := VerdictHasPlace(source, ctx.journal);
    } else {
      forall j: nat
        ensures !NewestVerdict(source, ctx.journal, j)
      {
        if NewestVerdict(source, ctx.journal, j) {
          VerdictIsNewest(source, ctx.journal, j);
        }
      }
    }
  }

  // The end of the freshness a receipt has of itself, when the clock holds it.
  predicate HasEnd(source: ResolvedCheck, r: Receipt) {
    && source.freshForSeconds <= MAX_DURATION_SECONDS
    && r.observedAt + source.freshForSeconds * NANOS_PER_SECOND <= MAX_INSTANT
  }

  // The attempt can be cited: it is a valid verdict of the check as it is now defined.
  predicate Citable(source: ResolvedCheck, r: Receipt) {
    && r.definitionDigest == source.definitionDigest && r.basis == source.basis && r.producer == source.producer
    && Validate(r).Ok? && r.verdict.Some? && HasEnd(source, r)
  }

  /** A check can be cited exactly when the catalogue selects it, its newest attempt is a valid verdict of its present
      definition, and its newest verdict still holds. */
  lemma CitedExactly(ctx: Context, from: string)
    ensures Cite(ctx, from).Ok? <==>
      && ctx.selectFault(from).None? && from in ctx.resolved && StillHolds(ctx, from)
      && exists k: nat :: NewestAttempt(ctx.journal, from, k) && Citable(ctx.resolved[from], ctx.journal[k])
  {
    if from in ctx.resolved {
      StaleMeansGone(ctx, from);
      if LatestAttempt(ctx.journal, from).Some? {
        var k := AttemptHasPlace(ctx.journal, from);
        AttemptIsNewest(ctx.journal, from, k);
      }
      forall k: nat | NewestAttempt(ctx.journal, from, k)
        ensures LatestAttempt(ctx.journal, from) == Some(ctx.journal[k])
      {
        AttemptIsNewest(ctx.journal, from, k);
      }
    }
  }

  /** `evidence_stale` is the answer exactly when there is an attempt to cite and the newest verdict no longer
      holds. */
  lemma RefusedAsStaleExactly(ctx: Context, from: string)
    requires ctx.selectFault(from).None? && from in ctx.resolved
    ensures Cite(ctx, from) == Err("evidence_stale") <==>
      (exists r :: r in ctx.journal && r.check == from) && !StillHolds(ctx, from)
  {
    StaleMeansGone(ctx, from);
  }

  // A citation names the newest attempt. Its bound has passed exactly when that of the attempt or, for a judgment,
  // a recorded bound of its own evidence has.
  lemma CitationExactly(ctx: Context, from: string, k: nat)
    requires Cite(ctx, from).Ok? && NewestAttempt(ctx.journal, from, k)
    ensures var (e, item) := Cite(ctx, from).value; var r := ctx.journal[k];
      && Citable(ctx.resolved[from], r)
      && e.name == from && e.digest == ctx.digest(r) && e.freshUntil.Some?
      && item.name == from && item.digest == e.digest && item.basis == r.basis && Some(item.verdict) == r.verdict
      && item.evidence == r.evidence && item.because == r.because && item.judgedBy == r.judgedBy
      && (e.freshUntil.value < ctx.now <==>
            r.observedAt + ctx.resolved[from].freshForSeconds * NANOS_PER_SECOND < ctx.now ||
            (r.basis == Judged && exists n :: n in r.evidence && n.freshUntil.Some? && n.freshUntil.value < ctx.now))
  {
    AttemptIsNewest(ctx.journal, from, k);
  }

  lemma NestedIsFresh(ctx: Context, from: string, k: nat, n: Evidence)
    requires Cite(ctx, from).Ok? && NewestAttempt(ctx.journal, from, k) && NewestVerdict(ctx.resolved[from], ctx.journal, k)
    requires ctx.journal[k].basis == Judged && n in ctx.journal[k].evidence
    ensures !EvidenceStale(ctx.digest, ctx.journal, ctx.now, n, {}) && !Expired(n, ctx.now)
  {
    var r := ctx.journal[k];
    CitedStillHolds(ctx, from);
    CitationExactly(ctx, from, k);
    assert !NoLongerHolds(ctx.digest, ctx.resolved[from], ctx.journal, ctx.now, r);
    GroundsGoneExactly(ctx.digest, ctx.journal, ctx.now, r);
  }

  // A bad chain from a citation to its own name is one from its evidence back to that evidence.
  lemma ReturnIsBad(digest: DigestFn, journal: Journal, now: Instant, e: Evidence, c: seq<Evidence>)
    requires |c| > 1 && c[0] == e && Chain(journal, c) && Last(c).name == e.name
    ensures BadChain(digest, journal, now, c[1], {}, c[1..] + [c[1]])
  {
    var rest := c[1..];
    var d := rest + [c[1]];
    ChainExtends(journal, rest, c[1]);
    assert d[0].name == Last(d).name;
  }

  lemma {:induction false} ChainExtends(journal: Journal, c: seq<Evidence>, next: Evidence)
    requires Chain(journal, c) && Link(journal, Last(c), next)
    ensures Chain(journal, c + [next])
    decreases |c|
  {
    var d := c + [next];
    if |c| > 1 {
      ChainExtends(journal, c[1..], next);
      assert d[1..] == c[1..] + [next];
    } else {
      assert d[1..] == [next];
    }
  }

  lemma CitedStillHolds(ctx: Context, from: string)
    requires Cite(ctx, from).Ok?
    ensures StillHolds(ctx, from)
  {
    CitedExactly(ctx, from);
  }

  lemma OwnBoundAhead(ctx: Context, from: string, k: nat)
    requires Cite(ctx, from).Ok? && NewestAttempt(ctx.journal, from, k) && NewestVerdict(ctx.resolved[from], ctx.journal, k)
    ensures ctx.journal[k].observedAt + ctx.resolved[from].freshForSeconds * NANOS_PER_SECOND >= ctx.now
  {
    CitedStillHolds(ctx, from);
    CitationExactly(ctx, from, k);
    assert !NoLongerHolds(ctx.digest, ctx.resolved[from], ctx.journal, ctx.now, ctx.journal[k]);
  }

  lemma NewCitationBroken(ctx: Context, from: string, k: nat)
    requires Cite(ctx, from).Ok? && NewestAttempt(ctx.journal, from, k)
    ensures var e, r := Cite(ctx, from).value.0, ctx.journal[k];
      Broken(ctx.digest, ctx.journal, ctx.now, e) <==>
      r.observedAt + ctx.resolved[from].freshForSeconds * NANOS_PER_SECOND < ctx.now ||
      (r.basis == Judged && exists n :: n in r.evidence && n.freshUntil.Some? && n.freshUntil.value < ctx.now)
  {
    AttemptIsNewest(ctx.journal, from, k);
    CitationExactly(ctx, from, k);
  }

  /** A new citation is stale exactly when the cited attempt has run out or, for a judgment, some of its evidence is
      stale: the bound and the path it starts add nothing. */
  lemma NewCitationStaleExactly(ctx: Context, from: string, k: nat)
    requires Cite(ctx, from).Ok? && NewestAttempt(ctx.journal, from, k)
    ensures var e, r := Cite(ctx, from).value.0, ctx.journal[k];
      EvidenceStale(ctx.digest, ctx.journal, ctx.now, e, {}) <==>
      r.observedAt + ctx.resolved[from].freshForSeconds * NANOS_PER_SECOND < ctx.now ||
      (r.basis == Judged && exists n :: n in r.evidence && EvidenceStale(ctx.digest, ctx.journal, ctx.now, n, {}))
  {
    var e, r := Cite(ctx, from).value.0, ctx.journal[k];
    NewCitationBroken(ctx, from, k);
    AttemptIsNewest(ctx.journal, from, k);
    CitationExactly(ctx, from, k);
    if Broken(ctx.digest, ctx.journal, ctx.now, e) {
      BadChainIsStale(ctx.digest, ctx.journal, ctx.now, e, {}, [e]);
    } else if EvidenceStale(ctx.digest, ctx.journal, ctx.now, e, {}) {
      var c := StaleHasBadChain(ctx.digest, ctx.journal, ctx.now, e, {});
      StaleBehind(ctx.digest, ctx.journal, ctx.now, e, c);
    }
    if n :| r.basis == Judged && n in r.evidence && EvidenceStale(ctx.digest, ctx.journal, ctx.now, n, {}) {
      StaleInFront(ctx.digest, ctx.journal, ctx.now, e, n);
    }
  }

  lemma StaleInFront(digest: DigestFn, journal: Journal, now: Instant, e: Evidence, n: Evidence)
    requires Link(journal, e, n) && EvidenceStale(digest, journal, now, n, {})
    ensures EvidenceStale(digest, journal, now, e, {})
  {
    var c := StaleHasBadChain(digest, journal, now, n, {});
    PrependToBadChain(digest, journal, now, e, c);
    BadChainIsStale(digest, journal, now, e, {}, [e] + c);
  }

  /** So it is not stale at the moment it is made when the newest attempt of the check is also its newest verdict. */
  lemma NewCitationIsNotStale(ctx: Context, from: string, k: nat)
    requires Cite(ctx, from).Ok? && NewestAttempt(ctx.journal, from, k) && NewestVerdict(ctx.resolved[from], ctx.journal, k)
    ensures !EvidenceStale(ctx.digest, ctx.journal, ctx.now, Cite(ctx, from).value.0, {})
  {
    NewCitationStaleExactly(ctx, from, k);
    OwnBoundAhead(ctx, from, k);
    forall n | ctx.journal[k].basis == Judged && n in ctx.journal[k].evidence
      ensures !EvidenceStale(ctx.digest, ctx.journal, ctx.now, n, {})
    {
      NestedIsFresh(ctx, from, k, n);
    }
  }

  function PassingReceipt(attempt: string, observedAt: Instant, completedAt: Instant): Receipt {
    Receipt(RESULT_VERSION, "lint", "d", attempt, observedAt, completedAt, Mechanical, "ci", Some(Pass), [], [], None, None, None)
  }

  const LINT := ResolvedCheck("lint", "d", Mechanical, "ci", 30, Block)

  // Of two runs the one observed first completes last.
  function LateAttempt(digest: DigestFn): Context {
    var second := NANOS_PER_SECOND;
    var journal := [PassingReceipt("a", 50 * second, 50 * second), PassingReceipt("b", 0, 60 * second)];
    Context(digest, _ => None, map["lint" := LINT], journal, 70 * second)
  }

  lemma LateAttemptFacts(digest: DigestFn)
    ensures var ctx := LateAttempt(digest);
      && NewestVerdict(LINT, ctx.journal, 0) && (forall j: nat :: NewestVerdict(LINT, ctx.journal, j) ==> j == 0)
      && !NoLongerHolds(digest, LINT, ctx.journal, ctx.now, ctx.journal[0])
      && NewestAttempt(ctx.journal, "lint", 1) && Citable(LINT, ctx.journal[1])
  {
    var journal := LateAttempt(digest).journal;
    assert Counted(LINT, journal[0]) && Counted(LINT, journal[1]);
  }

  // The case that needs the condition: the check passes by the earlier run, and the citation is of the late one, which
  // has run out.
  lemma LateAttemptIsStaleAtOnce(digest: DigestFn)
    ensures var ctx := LateAttempt(digest);
      && Cite(ctx, "lint").Ok?
      && StateOf(digest, LINT, ctx.journal, ctx.now) == Passing
      && EvidenceStale(digest, ctx.journal, ctx.now, Cite(ctx, "lint").value.0, {})
  {
    var ctx := LateAttempt(digest);
    LateAttemptFacts(digest);
    StateExactly(digest, LINT, ctx.journal, ctx.now);
    assert StillHolds(ctx, "lint");
    CitedExactly(ctx, "lint");
    NewCitationStaleExactly(ctx, "lint", 1);
  }

  // A citation that is not broken itself is stale only if something it directly rests on is.
  lemma StaleBehind(digest: DigestFn, journal: Journal, now: Instant, e: Evidence, c: seq<Evidence>)
    requires BadChain(digest, journal, now, e, {}, c) && !Broken(digest, journal, now, e)
    ensures |c| > 1 && Link(journal, e, c[1]) && EvidenceStale(digest, journal, now, c[1], {})
  {
    if |c| > 1 {
      var rest := c[1..];
      assert Last(rest) == Last(c);
      if Broken(digest, journal, now, Last(c)) {
        BadChainIsStale(digest, journal, now, c[1], {}, rest);
      } else {
        var i :| 0 <= i < |c| - 1 && c[i].name == Last(c).name;
        if i == 0 {
          ReturnIsBad(digest, journal, now, e, c);
          BadChainIsStale(digest, journal, now, c[1], {}, rest + [c[1]]);
        } else {
          assert rest[i - 1].name == Last(rest).name;
          BadChainIsStale(digest, journal, now, c[1], {}, rest);
        }
      }
    }
  }

  // Collects what `cite` yields for each reference, or the first refusal.
  method Collect<T(0)>(references: seq<string>, cite: string -> Result<T, string>) returns (r: Result<seq<T>, string>)
    ensures r.Ok? <==> forall from :: from in references ==> cite(from).Ok?
    ensures r.Ok? ==> |r.value| == |references| && forall k :: 0 <= k < |references| ==> cite(references[k]) == Ok(r.value[k])
    ensures r.Err? ==> exists k ::
      (0 <= k < |references| && cite(references[k]) == Err(r.error) && forall j :: 0 <= j < k ==> cite(references[j]).Ok?)
  {
    var items := [];
    for k := 0 to |references|
      invariant |items| == k
      invariant forall j :: 0 <= j < k ==> cite(references[j]) == Ok(items[j])
    {
      var cited := cite(references[k]);
      if cited.Err? {
        assert references[k] in references;
        return Err(cited.error);
      }
      items := items + [cited.value];
    }
    r := Ok(items);
  }

  function EvidenceOf(items: seq<(Evidence, BundleItem)>): seq<Evidence> {
    seq(|items|, i requires 0 <= i < |items| => items[i].0)
  }

  // A judgment is prepared exactly when every reference can be cited.
  method Prepare(ctx: Context, references: seq<string>) returns (r: Result<seq<(Evidence, BundleItem)>, string>)
    ensures r.Ok? <==> forall from :: from in references ==> Cite(ctx, from).Ok?
    ensures r.Ok? ==> |r.value| == |references|
    ensures r.Ok? ==> forall k :: 0 <= k < |references| ==> Cite(ctx, references[k]) == Ok(r.value[k])
    ensures r.Err? ==> exists k ::
      (0 <= k < |references| && Cite(ctx, references[k]) == Err(r.error) && forall j :: 0 <= j < k ==> Cite(ctx, references[j]).Ok?)
    ensures r.Ok? ==> forall from :: from in references ==> StillHolds(ctx, from)
  {
    r := Collect(references, from => Cite(ctx, from));
    forall from | from in references && Cite(ctx, from).Ok?
      ensures StillHolds(ctx, from)
    {
      CitedExactly(ctx, from);
    }
  }

  datatype Outcome = Judgement(verdict: Verdict, because: seq<Clause>) | HarnessFailed

  // The receipt of a judgment: a failed harness is recorded as inconclusive.
  function ExecuteAt(check: ResolvedCheck, evidence: seq<Evidence>, outcome: Outcome, judge: JudgeStamp,
                     attemptId: string, observedAt: Instant, completedAt: Instant): Result<Receipt, string>
  {
    var verdict := if outcome.Judgement? then outcome.verdict else Inconclusive;
    var because := if outcome.Judgement? then outcome.because else [];
    var r := Receipt(RESULT_VERSION, check.id, check.definitionDigest, attemptId, observedAt, completedAt, check.basis,
                     check.producer, Some(verdict), evidence, because, Some(judge), None, None);
    match Validate(r)
    case Ok(_) => Ok(r)
    case Err(fault) => Err(fault)
  }

  /** What is recorded is what the judge said, about the evidence it was shown and under the check's own stamp. A
      judge who fails leaves an inconclusive verdict without reasons. */
  lemma ExecutedRecords(check: ResolvedCheck, evidence: seq<Evidence>, outcome: Outcome, judge: JudgeStamp,
                        attemptId: string, observedAt: Instant, completedAt: Instant)
    requires ExecuteAt(check, evidence, outcome, judge, attemptId, observedAt, completedAt).Ok?
    ensures var r := ExecuteAt(check, evidence, outcome, judge, attemptId, observedAt, completedAt).value;
      && r.check == check.id && r.definitionDigest == check.definitionDigest
      && r.basis == check.basis && r.producer == check.producer
      && r.evidence == evidence && r.judgedBy == Some(judge) && r.error.None?
      && r.attemptId == attemptId && r.observedAt == observedAt && r.completedAt == completedAt
      && Counted(check, r) && check.basis == Judged
      && (outcome.HarnessFailed? ==> r.verdict == Some(Inconclusive) && r.because == [])
      && (outcome.Judgement? ==> r.verdict == Some(outcome.verdict) && r.because == outcome.because)
      && (r.verdict == Some(Pass) || r.verdict == Some(Fail) ==> r.because != [])
      && forall c :: c in r.because ==> exists e :: e in evidence && e.name == c.evidence
  {
  }

  // A reason that names nothing the judge was shown is refused, as incomplete evidence if that alone is wrong.
  lemma OutsideReasonIsRefused(check: ResolvedCheck, evidence: seq<Evidence>, verdict: Verdict, because: seq<Clause>,
                               judge: JudgeStamp, attemptId: string, observedAt: Instant, completedAt: Instant, c: Clause)
    requires c in because && forall e :: e in evidence ==> e.name != c.evidence
    ensures ExecuteAt(check, evidence, Judgement(verdict, because), judge, attemptId, observedAt, completedAt).Err?
  {
    var r := Receipt(RESULT_VERSION, check.id, check.definitionDigest, attemptId, observedAt, completedAt, check.basis,
                     check.producer, Some(verdict), evidence, because, Some(judge), None, None);
    assert CitesOutside(r);
  }

  // A failed judge never loses the attempt: a named check, producer, judge and evidence are all it takes.
  lemma FailedJudgeIsRecorded(check: ResolvedCheck, evidence: seq<Evidence>, judge: JudgeStamp,
                              attemptId: string, observedAt: Instant, completedAt: Instant)
    requires check.basis == Judged && check.id != "" && check.producer != "" && attemptId != "" && observedAt <= completedAt
    requires judge.harness != "" && judge.model != "" && judge.version != ""
    requires DistinctNames(evidence) && forall e :: e in evidence ==> e.name != "" && e.digest != ""
    ensures ExecuteAt(check, evidence, HarnessFailed, judge, attemptId, observedAt, completedAt).Ok?
  {
  }

  // ---- Journals whose judgments were all prepared and executed ----

  // `e` is what preparing from `journal` cites under its name.
  ghost predicate CitedBy(digest: DigestFn, journal: Journal, e: Evidence) {
    exists ctx: Context :: ctx.digest == digest && ctx.journal == journal && Cite(ctx, e.name).Ok? && Cite(ctx, e.name).value.0 == e
  }

  // Every citation of `r` was made from the first `k` receipts.
  ghost predicate CitedFrom(digest: DigestFn, journal: Journal, k: nat, r: Receipt)
    requires k <= |journal|
  {
    forall e :: e in r.evidence ==> CitedBy(digest, journal[..k], e)
  }

  ghost predicate Produced(digest: DigestFn, journal: Journal, i: nat)
    requires i < |journal|
  {
    journal[i].basis == Judged ==> exists k: nat :: k <= i && CitedFrom(digest, journal, k, journal[i])
  }

  ghost predicate JudgmentsProduced(digest: DigestFn, journal: Journal) {
    forall i :: 0 <= i < |journal| ==> Produced(digest, journal, i)
  }

  ghost predicate DigestsIdentify(digest: DigestFn, journal: Journal) {
    forall a, b :: a in journal && b in journal && digest(a) == digest(b) ==> a == b
  }

  // What preparing yields for the references.
  ghost predicate AllCited(ctx: Context, references: seq<string>, items: seq<(Evidence, BundleItem)>) {
    |items| == |references| && forall k :: 0 <= k < |references| ==> Cite(ctx, references[k]) == Ok(items[k])
  }

  lemma CitedOnce(ctx: Context, references: seq<string>, a: seq<(Evidence, BundleItem)>, b: seq<(Evidence, BundleItem)>)
    requires AllCited(ctx, references, a) && AllCited(ctx, references, b)
    ensures a == b
  {
    forall k | 0 <= k < |a|
      ensures a[k] == b[k]
    {
      assert Ok(a[k]) == Cite(ctx, references[k]) == Ok(b[k]);
    }
  }

  lemma PreparedIsCited(ctx: Context, from: string, item: (Evidence, BundleItem))
    requires Cite(ctx, from) == Ok(item)
    ensures item.0.name == from && CitedBy(ctx.digest, ctx.journal, item.0)
  {
  }

  /** A judgment prepared from an earlier journal and recorded in the present one keeps the
      journal in this form, whatever was recorded in between. */
  method Record(ctx: Context, references: seq<string>, check: ResolvedCheck, outcome: Outcome, judge: JudgeStamp,
                attemptId: string, observedAt: Instant, completedAt: Instant, journal: Journal)
    returns (after: Journal)
    requires ctx.journal <= journal && JudgmentsProduced(ctx.digest, journal)
    ensures JudgmentsProduced(ctx.digest, after)
    ensures (exists from :: from in references && Cite(ctx, from).Err?) ==> after == journal
    ensures forall items: seq<(Evidence, BundleItem)> :: AllCited(ctx, references, items) ==>
      var executed := ExecuteAt(check, EvidenceOf(items), outcome, judge, attemptId, observedAt, completedAt);
      after == if executed.Ok? then journal + [executed.value] else journal
  {
    var prepared := Prepare(ctx, references);
    if prepared.Err? {
      ghost var k: nat :| k < |references| && Cite(ctx, references[k]) == Err(prepared.error);
      assert forall items: seq<(Evidence, BundleItem)> :: AllCited(ctx, references, items) ==> Cite(ctx, references[k]).Ok?;
      return journal;
    }
    forall items: seq<(Evidence, BundleItem)> | AllCited(ctx, references, items)
      ensures items == prepared.value
    {
      CitedOnce(ctx, references, items, prepared.value);
    }
    var evidence := EvidenceOf(prepared.value);
    var r := ExecuteAt(check, evidence, outcome, judge, attemptId, observedAt, completedAt);
    if r.Err? {
      return journal;
    }
    after := journal + [r.value];
    ghost var k := |ctx.journal|;
    forall e | e in evidence
      ensures CitedBy(ctx.digest, journal[..k], e)
    {
      var i :| 0 <= i < |evidence| && evidence[i] == e;
      PreparedIsCited(ctx, references[i], prepared.value[i]);
    }
    assert r.value.evidence == evidence;
    AppendProduced(ctx.digest, journal, k, r.value);
  }

  lemma CitedFromPrefix(digest: DigestFn, journal: Journal, after: Journal, k: nat, r: Receipt)
    requires k <= |journal| <= |after| && after[..|journal|] == journal
    ensures CitedFrom(digest, journal, k, r) <==> CitedFrom(digest, after, k, r)
  {
    assert after[..k] == journal[..k];
  }

  lemma AppendProduced(digest: DigestFn, journal: Journal, k: nat, r: Receipt)
    requires JudgmentsProduced(digest, journal)
    requires r.basis == Judged ==> k <= |journal| && CitedFrom(digest, journal, k, r)
    ensures JudgmentsProduced(digest, journal + [r])
  {
    var after := journal + [r];
    assert after[..|journal|] == journal;
    forall i | 0 <= i < |after|
      ensures Produced(digest, after, i)
    {
      if after[i].basis == Judged {
        if i < |journal| {
          assert Produced(digest, journal, i);
          var m: nat :| m <= i && CitedFrom(digest, journal, m, journal[i]);
          CitedFromPrefix(digest, journal, after, m, journal[i]);
        } else {
          CitedFromPrefix(digest, journal, after, k, r);
        }
      }
    }
  }

  // ---- The cached bound ----

  ghost predicate Mismatched(digest: DigestFn, journal: Journal, e: Evidence) {
    LatestAttempt(journal, e.name).None? || digest(LatestAttempt(journal, e.name).value) != e.digest
  }

  // The receipt a citation was made of.
  lemma CitedReceipt(digest: DigestFn, journal: Journal, e: Evidence) returns (original: Receipt)
    requires CitedBy(digest, journal, e)
    ensures original in journal && digest(original) == e.digest
    ensures e.freshUntil.Some?
    ensures original.basis == Judged ==> forall n :: n in original.evidence && n.freshUntil.Some? ==>
      e.freshUntil.value <= n.freshUntil.value
  {
    var ctx: Context :| ctx.digest == digest && ctx.journal == journal && Cite(ctx, e.name).Ok? && Cite(ctx, e.name).value.0 == e;
    original := LatestAttempt(journal, e.name).value;
  }

  // What a citation that still matches refers to: an earlier receipt, none of whose
  // own citations expires before it.
  lemma MatchedCitation(digest: DigestFn, journal: Journal, r: Receipt, e: Evidence) returns (cited: Receipt)
    requires JudgmentsProduced(digest, journal) && DigestsIdentify(digest, journal)
    requires r in journal && r.basis == Judged && e in r.evidence && !Mismatched(digest, journal, e)
    ensures LatestAttempt(journal, e.name) == Some(cited) && cited in journal
    ensures FirstIndex(journal, cited) < FirstIndex(journal, r)
    ensures e.freshUntil.Some?
    ensures cited.basis == Judged ==> forall n :: n in cited.evidence && n.freshUntil.Some? ==>
      e.freshUntil.value <= n.freshUntil.value
  {
    var i := FirstIndex(journal, r);
    assert Produced(digest, journal, i);
    var k: nat :| k <= i && CitedFrom(digest, journal, k, journal[i]);
    var original := CitedReceipt(digest, journal[..k], e);
    cited := LatestAttempt(journal, e.name).value;
    var j :| 0 <= j < k && journal[..k][j] == original;
    assert journal[j] == original && original in journal;
  }

  ghost predicate Matched(digest: DigestFn, journal: Journal, c: seq<Evidence>) {
    forall e :: e in c ==> !Mismatched(digest, journal, e)
  }

  // Where the check that `e` names was last attempted first stands in the journal.
  ghost function PlaceOf(journal: Journal, e: Evidence): int {
    var latest := LatestAttempt(journal, e.name);
    if latest.Some? then FirstIndex(journal, latest.value) else -1
  }

  // The receipts lie strictly earlier and earlier, below `limit`, while the bounds
  // never fall, from `bound` on.
  ghost predicate Descends(journal: Journal, c: seq<Evidence>, limit: int, bound: Instant) {
    c == [] ||
    (&& PlaceOf(journal, c[0]) < limit
     && c[0].freshUntil.Some? && bound <= c[0].freshUntil.value
     && Descends(journal, c[1..], PlaceOf(journal, c[0]), c[0].freshUntil.value))
  }

  /** Every chain of matching citations from a recorded judgment goes back in the journal, and its
      bounds never fall below the first. */
  lemma {:induction false} MatchedChainDescends(digest: DigestFn, journal: Journal, r: Receipt, c: seq<Evidence>)
    requires JudgmentsProduced(digest, journal) && DigestsIdentify(digest, journal)
    requires r in journal && r.basis == Judged
    requires Chain(journal, c) && c[0] in r.evidence && Matched(digest, journal, c)
    ensures c[0].freshUntil.Some? && Descends(journal, c, FirstIndex(journal, r), c[0].freshUntil.value)
    decreases |c|
  {
    assert c[0] in c;
    var cited := MatchedCitation(digest, journal, r, c[0]);
    if |c| > 1 {
      var rest := c[1..];
      assert forall e :: e in rest ==> e in c;
      MatchedChainDescends(digest, journal, cited, rest);
    }
  }

  lemma {:induction false} DescendingChain(journal: Journal, c: seq<Evidence>, limit: int, bound: Instant, i: nat)
    requires Descends(journal, c, limit, bound) && i < |c|
    ensures c[i].freshUntil.Some? && bound <= c[i].freshUntil.value
    ensures PlaceOf(journal, c[i]) < limit
    ensures i > 0 ==> PlaceOf(journal, c[i]) < PlaceOf(journal, c[0])
    decreases |c|
  {
    if i > 0 {
      DescendingChain(journal, c[1..], PlaceOf(journal, c[0]), c[0].freshUntil.value, i - 1);
    }
  }

  // Distinct positions of a descending chain name distinct checks.
  lemma {:induction false} DescendingNames(journal: Journal, c: seq<Evidence>, limit: int, bound: Instant, i: nat, j: nat)
    requires Descends(journal, c, limit, bound) && i < j < |c|
    ensures c[i].name != c[j].name
    decreases |c|
  {
    if i == 0 {
      DescendingChain(journal, c, limit, bound, j);
    } else {
      DescendingNames(journal, c[1..], PlaceOf(journal, c[0]), c[0].freshUntil.value, i - 1, j - 1);
    }
  }

  lemma {:induction false} ChainPrefix(journal: Journal, c: seq<Evidence>, n: nat)
    requires Chain(journal, c) && 0 < n <= |c|
    ensures Chain(journal, c[..n])
    decreases |c|
  {
    if n > 1 {
      ChainPrefix(journal, c[1..], n - 1);
      assert c[..n][1..] == c[1..][..n - 1];
    }
  }

  ghost predicate MismatchBeyond(digest: DigestFn, journal: Journal, e: Evidence) {
    exists c :: Chain(journal, c) && c[0] == e && Mismatched(digest, journal, Last(c))
  }

  lemma PrefixEndsAt(journal: Journal, c: seq<Evidence>, i: nat)
    requires Chain(journal, c) && i < |c|
    ensures Chain(journal, c[..i + 1]) && c[..i + 1][0] == c[0] && Last(c[..i + 1]) == c[i]
  {
    ChainPrefix(journal, c, i + 1);
  }

  lemma NothingMismatched(digest: DigestFn, journal: Journal, c: seq<Evidence>)
    requires Chain(journal, c) && !MismatchBeyond(digest, journal, c[0])
    ensures Matched(digest, journal, c)
  {
    forall i | 0 <= i < |c|
      ensures !Mismatched(digest, journal, c[i])
    {
      PrefixEndsAt(journal, c, i);
    }
  }

  // Along matching citations no name repeats, and the last bound is not before the first.
  lemma MatchedChainEnds(digest: DigestFn, journal: Journal, r: Receipt, c: seq<Evidence>)
    requires JudgmentsProduced(digest, journal) && DigestsIdentify(digest, journal)
    requires r in journal && r.basis == Judged
    requires Chain(journal, c) && c[0] in r.evidence && Matched(digest, journal, c)
    ensures c[0].freshUntil.Some? && Last(c).freshUntil.Some? && c[0].freshUntil.value <= Last(c).freshUntil.value
    ensures !Repeats(c, {})
  {
    MatchedChainDescends(digest, journal, r, c);
    var limit, bound := FirstIndex(journal, r), c[0].freshUntil.value;
    DescendingChain(journal, c, limit, bound, |c| - 1);
    forall i | 0 <= i < |c| - 1
      ensures c[i].name != Last(c).name
    {
      DescendingNames(journal, c, limit, bound, i, |c| - 1);
    }
  }

  // A bad chain without a mismatch is one whose first bound has passed.
  lemma StaleWithoutMismatch(digest: DigestFn, journal: Journal, now: Instant, r: Receipt, c: seq<Evidence>)
    requires JudgmentsProduced(digest, journal) && DigestsIdentify(digest, journal)
    requires c != [] && BadChain(digest, journal, now, c[0], {}, c) && !MismatchBeyond(digest, journal, c[0])
    requires r in journal && r.basis == Judged && c[0] in r.evidence
    ensures Expired(c[0], now)
  {
    NothingMismatched(digest, journal, c);
    MatchedChainEnds(digest, journal, r, c);
    assert Last(c) in c;
  }

  /** The bound recorded with a citation agrees with the recursive walk: in a journal of prepared
      judgments a citation is stale exactly when its own bound has passed or some
      citation behind it no longer matches the latest attempt. */
  lemma CachedBoundAgrees(digest: DigestFn, journal: Journal, now: Instant, r: Receipt, e: Evidence)
    requires JudgmentsProduced(digest, journal) && DigestsIdentify(digest, journal)
    requires r in journal && r.basis == Judged && e in r.evidence
    ensures EvidenceStale(digest, journal, now, e, {}) <==> Expired(e, now) || MismatchBeyond(digest, journal, e)
  {
    if EvidenceStale(digest, journal, now, e, {}) && !MismatchBeyond(digest, journal, e) {
      var c := StaleHasBadChain(digest, journal, now, e, {});
      StaleWithoutMismatch(digest, journal, now, r, c);
    }
    if c :| Chain(journal, c) && c[0] == e && Mismatched(digest, journal, Last(c)) {
      BadChainIsStale(digest, journal, now, e, {}, c);
    }
    if Expired(e, now) {
      BadChainIsStale(digest, journal, now, e, {}, [e]);
    }
  }
}
