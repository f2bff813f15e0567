/** crates/ostrom-core/src/check.rs, lines 561-1052: receipts of check runs, the state a
    check has given its journal, and the staleness of judged evidence. */
module Receipts {
  import opened Wrappers
  import opened Text

  // Nanoseconds since the epoch.
  type Instant = int

  const NANOS_PER_SECOND := 1_000_000_000
  // The longest duration and the last instant the source's clock library represents.
  const MAX_DURATION_SECONDS := 9_223_372_036_854_775
  const MAX_INSTANT := 8_210_266_876_799_999_999_999

  const RESULT_VERSION := 1

  datatype Basis = Mechanical | Judged
  datatype Verdict = Pass | Fail | Inconclusive
  datatype InconclusivePolicy = Block | Warn | CountAsPass

  datatype Evidence = Evidence(name: string, digest: string, freshUntil: Option<Instant>)
  datatype Clause = Clause(evidence: string, detail: string)
  datatype JudgeStamp = JudgeStamp(harness: string, model: string, version: string)

  datatype Receipt = Receipt(
    resultVersion: int,
    check: string,
    definitionDigest: string,
    attemptId: string,
    observedAt: Instant,
    completedAt: Instant,
    basis: Basis,
    producer: string,
    verdict: Option<Verdict>,
    evidence: seq<Evidence>,
    because: seq<Clause>,
    judgedBy: Option<JudgeStamp>,
    error: Option<string>,
    detail: Option<string>)

  type Journal = seq<Receipt>

  // The digest of the canonical form of a receipt.
  type DigestFn = Receipt -> string

  datatype ResolvedCheck = ResolvedCheck(
    id: string,
    definitionDigest: string,
    basis: Basis,
    producer: string,
    freshForSeconds: nat,
    inconclusivePolicy: InconclusivePolicy)

  datatype CheckState = NeverRun | Stale | Passing | Failing | InconclusiveState
  datatype CheckFault = CheckFault(name: string, detail: Option<string>)
  datatype CheckEvaluation = CheckEvaluation(state: CheckState, fault: Option<CheckFault>)

  // ---- Receipts ----

  predicate DistinctNames(evidence: seq<Evidence>) {
    forall i, j :: 0 <= i < j < |evidence| ==> evidence[i].name != evidence[j].name
  }

  predicate WellFormedEnvelope(r: Receipt) {
    && r.resultVersion == RESULT_VERSION
    && r.check != "" && r.attemptId != "" && r.producer != ""
    && r.observedAt <= r.completedAt
    && (r.verdict.Some? <==> r.error.None?)
    && (r.verdict.Some? ==> r.detail.None?)
    && (r.error.Some? ==> r.evidence == [] && r.error.value != "")
    && (forall e :: e in r.evidence ==> e.name != "" && e.digest != "")
    && DistinctNames(r.evidence)
    && (forall c :: c in r.because ==> c.evidence != "" && !Blank(c.detail))
    && (r.judgedBy.Some? ==>
          r.judgedBy.value.harness != "" && r.judgedBy.value.model != "" && r.judgedBy.value.version != "")
  }

  // Some reason names no evidence of the receipt.
  predicate CitesOutside(r: Receipt) {
    exists c :: c in r.because && forall e :: e in r.evidence ==> e.name != c.evidence
  }

  // Only a judge gives reasons, and a judge who decides gives some.
  predicate WellFormedJudgment(r: Receipt) {
    match r.basis
    case Mechanical => r.judgedBy.None? && r.because == []
    case Judged =>
      && r.judgedBy.Some?
      && (r.verdict == Some(Pass) || r.verdict == Some(Fail) ==> r.evidence != [] && r.because != [])
      && (r.verdict == Some(Inconclusive) ==> r.because == [])
      && (r.error.Some? ==> r.evidence == [] && r.because == [])
  }

  predicate WellFormed(r: Receipt) {
    WellFormedEnvelope(r) && WellFormedJudgment(r) && !CitesOutside(r)
  }

  // The tests in the order of the source; a reason that cites nothing shown to the judge has a fault of its own.
  function Validate(r: Receipt): (result: Result<(), string>)
    ensures result.Ok? <==> WellFormed(r)
    ensures result == Err("evidence_incomplete") <==> WellFormedEnvelope(r) && WellFormedJudgment(r) && CitesOutside(r)
    ensures result.Err? ==> result.error in ["malformed_receipt", "evidence_incomplete"]
  {
    if || r.resultVersion != RESULT_VERSION
       || r.check == "" || r.attemptId == "" || r.producer == ""
       || r.completedAt < r.observedAt
       || (r.verdict.Some? && r.error.Some?) || (r.verdict.None? && r.error.None?)
       || (r.verdict.Some? && r.detail.Some?)
       || (r.error.Some? && r.evidence != [])
       || r.error == Some("")
       || (exists e :: e in r.evidence && (e.name == "" || e.digest == ""))
       || !DistinctNames(r.evidence)
       || (exists c :: c in r.because && (c.evidence == "" || Blank(c.detail)))
       || (r.judgedBy.Some? &&
           (r.judgedBy.value.harness == "" || r.judgedBy.value.model == "" || r.judgedBy.value.version == ""))
    then Err("malformed_receipt")
    else
      match r.basis
      case Mechanical =>
        if r.judgedBy.Some? || r.because != [] then Err("malformed_receipt") else Ok(())
      case Judged =>
        if || r.judgedBy.None?
           || ((r.verdict == Some(Pass) || r.verdict == Some(Fail)) && (r.evidence == [] || r.because == []))
           || (r.verdict == Some(Inconclusive) && r.because != [])
           || (r.error.Some? && (r.evidence != [] || r.because != []))
        then Err("malformed_receipt")
        else if CitesOutside(r) then Err("evidence_incomplete")
        else Ok(())
  }

  // A valid receipt says who ran what and when, and either a verdict or an error.
  lemma ValidReceiptIsIdentified(r: Receipt)
    requires Validate(r).Ok?
    ensures r.check != "" && r.attemptId != "" && r.producer != "" && r.observedAt <= r.completedAt
    ensures r.verdict.Some? != r.error.Some?
    ensures r.error.Some? ==> r.error.value != "" && r.evidence == []
    ensures forall e :: e in r.evidence ==> e.name != "" && e.digest != ""
  {
  }

  /** A judge who decides gives reasons, each in words and about exactly one piece of the evidence; nothing else gives
      any. */
  lemma ValidJudgmentIsGrounded(r: Receipt)
    requires Validate(r).Ok?
    ensures r.because != [] <==> r.basis == Judged && (r.verdict == Some(Pass) || r.verdict == Some(Fail))
    ensures r.judgedBy.Some? <==> r.basis == Judged
    ensures r.judgedBy.Some? ==>
      r.judgedBy.value.harness != "" && r.judgedBy.value.model != "" && r.judgedBy.value.version != ""
    ensures forall c :: c in r.because ==> InWords(c) && exists k: nat :: OnlyEvidence(r, c.evidence, k)
  {
    match r.verdict {
      case None =>
      case Some(v) => assert v == Pass || v == Fail || v == Inconclusive;
    }
    forall c | c in r.because
      ensures exists k: nat :: OnlyEvidence(r, c.evidence, k)
    {
      var e :| e in r.evidence && e.name == c.evidence;
      var k :| 0 <= k < |r.evidence| && r.evidence[k] == e;
      assert OnlyEvidence(r, c.evidence, k);
    }
  }

  predicate InWords(c: Clause) {
    exists x :: x in c.detail && !Whitespace(x)
  }

  // The evidence of this name stands at `k` and nowhere else.
  ghost predicate OnlyEvidence(r: Receipt, name: string, k: nat) {
    && k < |r.evidence| && r.evidence[k].name == name
    && forall j :: 0 <= j < |r.evidence| && r.evidence[j].name == name ==> j == k
  }

  /** The last of the receipts that `keep` selects with the greatest `time`; of equal times
      the one later in the journal. */
  function Latest(journal: Journal, keep: Receipt -> bool, time: Receipt -> Instant): (r: Option<Receipt>)
    ensures r.None? <==> forall x :: x in journal ==> !keep(x)
    ensures r.Some? ==> r.value in journal && keep(r.value)
    ensures r.Some? ==> forall x :: x in journal && keep(x) ==> time(x) <= time(r.value)
  {
    if journal == [] then None
    else
      var last := journal[|journal| - 1];
      assert journal == journal[..|journal| - 1] + [last];
      var best := Latest(journal[..|journal| - 1], keep, time);
      if keep(last) && (best.None? || time(best.value) <= time(last)) then Some(last) else best
  }

  function CompletedAt(r: Receipt): Instant { r.completedAt }

  function ObservedAt(r: Receipt): Instant { r.observedAt }

  function LatestAttempt(journal: Journal, check: string): Option<Receipt> {
    Latest(journal, (r: Receipt) => r.check == check, CompletedAt)
  }

  predicate Stamped(check: ResolvedCheck, r: Receipt) {
    r.definitionDigest == check.definitionDigest && r.basis == check.basis && r.producer == check.producer
  }

  predicate CountsAsVerdict(check: ResolvedCheck, r: Receipt) {
    r.check == check.id && Stamped(check, r) && WellFormed(r) && r.verdict.Some?
  }

  function LatestVerdict(journal: Journal, check: ResolvedCheck): Option<Receipt> {
    Latest(journal, (r: Receipt) => CountsAsVerdict(check, r), ObservedAt)
  }

  // The end of a receipt's freshness, or nothing when no clock value holds it.
  function ExpiresAt(observedAt: Instant, seconds: nat): Option<Instant> {
    if seconds > MAX_DURATION_SECONDS then None
    else if observedAt + seconds * NANOS_PER_SECOND > MAX_INSTANT then None
    else Some(observedAt + seconds * NANOS_PER_SECOND)
  }

  // ---- Staleness of evidence ----

  predicate Expired(e: Evidence, now: Instant) {
    e.freshUntil.None? || e.freshUntil.value < now
  }

  function Names(journal: Journal): set<string> {
    set r | r in journal :: r.check
  }

  /** A citation is stale when it is expired, repeats a name of the path, names a check that never
      ran, differs from that check's latest attempt, or that attempt is a judgment
      with a stale citation of its own. */
  predicate EvidenceStale(digest: DigestFn, journal: Journal, now: Instant, e: Evidence, path: set<string>)
    decreases Names(journal) - path
  {
    || Expired(e, now)
    || e.name in path
    || var latest := LatestAttempt(journal, e.name);
       || latest.None?
       || digest(latest.value) != e.digest
       || (latest.value.basis == Judged &&
             exists nested :: nested in latest.value.evidence &&
               EvidenceStale(digest, journal, now, nested, path + {e.name}))
  }

  /** The walk threads one mutable set of names. An early return leaves the name in it, but then the
      answer is already `true` all the way up; after `false` the set is restored. */
  method EvidenceIsStale(digest: DigestFn, journal: Journal, now: Instant, e: Evidence, visiting0: set<string>)
    returns (stale: bool, visiting: set<string>)
    ensures stale <==> EvidenceStale(digest, journal, now, e, visiting0)
    ensures !stale ==> visiting == visiting0
    decreases Names(journal) - visiting0
  {
    visiting := visiting0;
    if Expired(e, now) {
      return true, visiting;
    }
    if e.name in visiting {
      return true, visiting;
    }
    visiting := visiting + {e.name};
    var latest := LatestAttempt(journal, e.name);
    if latest.None? {
      return true, visiting;
    }
    stale := digest(latest.value) != e.digest;
    if !stale && latest.value.basis == Judged {
      for k := 0 to |latest.value.evidence|
        invariant visiting == visiting0 + {e.name}
        invariant forall nested :: nested in latest.value.evidence[..k] ==>
          !EvidenceStale(digest, journal, now, nested, visiting0 + {e.name})
      {
        stale, visiting := EvidenceIsStale(digest, journal, now, latest.value.evidence[k], visiting);
        if stale {
          assert latest.value.evidence[k] in latest.value.evidence;
          break;
        }
      }
    }
    visiting := visiting - {e.name};
  }

  // ---- The state of a check ----

  function FaultOf(check: ResolvedCheck, journal: Journal): Option<CheckFault> {
    match LatestAttempt(journal, check.id)
    case None => None
    case Some(r) =>
      if !Stamped(check, r) then Some(CheckFault("definition_mismatch", None))
      else if !WellFormed(r) then Some(CheckFault("malformed_receipt", None))
      else if r.error.Some? then Some(CheckFault(r.error.value, r.detail))
      else None
  }

  function StateOf(digest: DigestFn, check: ResolvedCheck, journal: Journal, now: Instant): CheckState {
    match LatestVerdict(journal, check)
    case None => NeverRun
    case Some(r) =>
      var expiresAt := ExpiresAt(r.observedAt, check.freshForSeconds);
      var evidenceStale := check.basis == Judged && exists e :: e in r.evidence && EvidenceStale(digest, journal, now, e, {});
      if (expiresAt.Some? && expiresAt.value < now) || evidenceStale then Stale
      else
        match r.verdict
        case Some(Pass) => Passing
        case Some(Fail) => Failing
        case Some(Inconclusive) => if check.inconclusivePolicy == Block then InconclusiveState else Passing
        case None => NeverRun
  }

  // ---- What a state means ----

  // Of the selected receipts none has a greater time, and none later in the journal the same.
  ghost predicate NewestAt(journal: Journal, keep: Receipt -> bool, time: Receipt -> Instant, k: nat) {
    && k < |journal| && keep(journal[k])
    && forall j :: 0 <= j < |journal| && keep(journal[j]) ==>
         time(journal[j]) < time(journal[k]) || (time(journal[j]) == time(journal[k]) && j <= k)
  }

  lemma {:induction false} LatestIsNewest(journal: Journal, keep: Receipt -> bool, time: Receipt -> Instant, k: nat)
    requires NewestAt(journal, keep, time, k)
    ensures Latest(journal, keep, time) == Some(journal[k])
  {
    var n := |journal| - 1;
    if k < n {
      assert NewestAt(journal[..n], keep, time, k);
      LatestIsNewest(journal[..n], keep, time, k);
      assert journal[..n][k] == journal[k];
    }
  }

  lemma {:induction false} NewestExists(journal: Journal, keep: Receipt -> bool, time: Receipt -> Instant) returns (k: nat)
    requires exists x :: x in journal && keep(x)
    ensures NewestAt(journal, keep, time, k)
  {
    var n := |journal| - 1;
    assert journal == journal[..n] + [journal[n]];
    if exists x :: x in journal[..n] && keep(x) {
      k := NewestExists(journal[..n], keep, time);
      if keep(journal[n]) && time(journal[k]) <= time(journal[n]) {
        assert forall j :: 0 <= j < n && keep(journal[j]) ==> keep(journal[..n][j]);
        k := n;
      }
    } else {
      assert forall j :: 0 <= j < n ==> journal[j] in journal[..n];
      k := n;
    }
  }

  // A verdict of this check under its present definition.
  predicate Counted(check: ResolvedCheck, r: Receipt) {
    && r.check == check.id && r.verdict.Some? && Validate(r).Ok?
    && r.definitionDigest == check.definitionDigest && r.basis == check.basis && r.producer == check.producer
  }

  ghost predicate NewestVerdict(check: ResolvedCheck, journal: Journal, k: nat) {
    && k < |journal| && Counted(check, journal[k])
    && forall j :: 0 <= j < |journal| && Counted(check, journal[j]) ==>
         journal[j].observedAt < journal[k].observedAt || (journal[j].observedAt == journal[k].observedAt && j <= k)
  }

  ghost predicate NewestAttempt(journal: Journal, name: string, k: nat) {
    && k < |journal| && journal[k].check == name
    && forall j :: 0 <= j < |journal| && journal[j].check == name ==>
         journal[j].completedAt < journal[k].completedAt || (journal[j].completedAt == journal[k].completedAt && j <= k)
  }

  lemma VerdictIsNewest(check: ResolvedCheck, journal: Journal, k: nat)
    requires NewestVerdict(check, journal, k)
    ensures LatestVerdict(journal, check) == Some(journal[k])
  {
    var keep := (r: Receipt) => CountsAsVerdict(check, r);
    assert NewestAt(journal, keep, ObservedAt, k);
    LatestIsNewest(journal, keep, ObservedAt, k);
  }

  lemma AttemptIsNewest(journal: Journal, name: string, k: nat)
    requires NewestAttempt(journal, name, k)
    ensures LatestAttempt(journal, name) == Some(journal[k])
  {
    var keep := (r: Receipt) => r.check == name;
    assert NewestAt(journal, keep, CompletedAt, k);
    LatestIsNewest(journal, keep, CompletedAt, k);
  }

  lemma VerdictHasPlace(check: ResolvedCheck, journal: Journal) returns (k: nat)
    requires LatestVerdict(journal, check).Some?
    ensures NewestVerdict(check, journal, k)
  {
    var keep := (r: Receipt) => CountsAsVerdict(check, r);
    assert LatestVerdict(journal, check).value in journal && keep(LatestVerdict(journal, check).value);
    k := NewestExists(journal, keep, ObservedAt);
    assert forall j :: 0 <= j < |journal| && Counted(check, journal[j]) ==> keep(journal[j]);
  }

  lemma AttemptHasPlace(journal: Journal, name: string) returns (k: nat)
    requires LatestAttempt(journal, name).Some?
    ensures NewestAttempt(journal, name, k)
  {
    var keep := (r: Receipt) => r.check == name;
    assert LatestAttempt(journal, name).value in journal && keep(LatestAttempt(journal, name).value);
    k := NewestExists(journal, keep, CompletedAt);
    assert forall j :: 0 <= j < |journal| && journal[j].check == name ==> keep(journal[j]);
  }

  // The freshness of the verdict has ended. A freshness that no clock value holds never ends.
  predicate RunOut(check: ResolvedCheck, r: Receipt, now: Instant) {
    var end := r.observedAt + check.freshForSeconds * NANOS_PER_SECOND;
    check.freshForSeconds <= MAX_DURATION_SECONDS && end <= MAX_INSTANT && end < now
  }

  ghost predicate GroundsGone(digest: DigestFn, journal: Journal, now: Instant, r: Receipt) {
    exists e, c :: e in r.evidence && BadChain(digest, journal, now, e, {}, c)
  }

  // The verdict no longer holds: it has run out, or a judgment has lost its grounds.
  ghost predicate NoLongerHolds(digest: DigestFn, check: ResolvedCheck, journal: Journal, now: Instant, r: Receipt) {
    RunOut(check, r, now) || (check.basis == Judged && GroundsGone(digest, journal, now, r))
  }

  // What each state claims of the newest verdict.
  ghost predicate StateShows(digest: DigestFn, check: ResolvedCheck, journal: Journal, now: Instant, r: Receipt, state: CheckState) {
    var gone := NoLongerHolds(digest, check, journal, now, r);
    && state != NeverRun
    && (state == Stale <==> gone)
    && (state == Passing <==> !gone && (r.verdict == Some(Pass) || (r.verdict == Some(Inconclusive) && check.inconclusivePolicy != Block)))
    && (state == Failing <==> !gone && r.verdict == Some(Fail))
    && (state == InconclusiveState <==> !gone && r.verdict == Some(Inconclusive) && check.inconclusivePolicy == Block)
  }

  /** The state is that of the newest verdict: passing, failing or inconclusive as it says, and stale exactly
      when it has run out or, for a judgment, some citation chain behind it is bad. */
  lemma StateExactly(digest: DigestFn, check: ResolvedCheck, journal: Journal, now: Instant)
    ensures StateOf(digest, check, journal, now) == NeverRun <==> forall r :: r in journal ==> !Counted(check, r)
    ensures forall k: nat :: NewestVerdict(check, journal, k) ==>
      StateShows(digest, check, journal, now, journal[k], StateOf(digest, check, journal, now))
  {
    NoVerdictExactly(check, journal);
    NeverRunExactly(digest, check, journal, now);
    forall k: nat | NewestVerdict(check, journal, k)
      ensures StateShows(digest, check, journal, now, journal[k], StateOf(digest, check, journal, now))
    {
      StateOfNewest(digest, check, journal, now, k);
    }
  }

  lemma NoVerdictExactly(check: ResolvedCheck, journal: Journal)
    ensures LatestVerdict(journal, check).None? <==> forall r :: r in journal ==> !Counted(check, r)
  {
  }

  lemma NeverRunExactly(digest: DigestFn, check: ResolvedCheck, journal: Journal, now: Instant)
    ensures StateOf(digest, check, journal, now) == NeverRun <==> LatestVerdict(journal, check).None?
  {
  }

  lemma StateOfNewest(digest: DigestFn, check: ResolvedCheck, journal: Journal, now: Instant, k: nat)
    requires NewestVerdict(check, journal, k)
    ensures StateShows(digest, check, journal, now, journal[k], StateOf(digest, check, journal, now))
  {
    VerdictIsNewest(check, journal, k);
    GroundsGoneExactly(digest, journal, now, journal[k]);
  }

  lemma GroundsGoneExactly(digest: DigestFn, journal: Journal, now: Instant, r: Receipt)
    ensures GroundsGone(digest, journal, now, r) <==> exists e :: e in r.evidence && EvidenceStale(digest, journal, now, e, {})
  {
    forall e | e in r.evidence
      ensures EvidenceStale(digest, journal, now, e, {}) <==> exists c :: BadChain(digest, journal, now, e, {}, c)
    {
      StaleExactlyOnBadChain(digest, journal, now, e);
    }
  }

  // What the reported fault claims of the newest attempt.
  predicate FaultShows(check: ResolvedCheck, r: Receipt, fault: Option<CheckFault>) {
    var stamped := r.definitionDigest == check.definitionDigest && r.basis == check.basis && r.producer == check.producer;
    && (fault.None? <==> stamped && Validate(r).Ok? && r.error.None?)
    && (!stamped ==> fault == Some(CheckFault("definition_mismatch", None)))
    && (stamped && Validate(r).Err? ==> fault == Some(CheckFault("malformed_receipt", None)))
    && (stamped && Validate(r).Ok? && r.error.Some? ==> fault == Some(CheckFault(r.error.value, r.detail)))
  }

  lemma FaultExactly(check: ResolvedCheck, journal: Journal)
    ensures (forall r :: r in journal ==> r.check != check.id) ==> FaultOf(check, journal).None?
    ensures forall k: nat :: NewestAttempt(journal, check.id, k) ==> FaultShows(check, journal[k], FaultOf(check, journal))
  {
    forall k: nat | NewestAttempt(journal, check.id, k)
      ensures FaultShows(check, journal[k], FaultOf(check, journal))
    {
      AttemptIsNewest(journal, check.id, k);
    }
  }

  /** A newest verdict appended to any journal shows at once, and until it runs out, if it is mechanical. */
  lemma AppendedVerdictShows(digest: DigestFn, check: ResolvedCheck, journal: Journal, now: Instant, r: Receipt)
    requires check.basis == Mechanical && Counted(check, r) && !RunOut(check, r, now)
    requires forall x :: x in journal && Counted(check, x) ==> x.observedAt <= r.observedAt
    ensures var state := StateOf(digest, check, journal + [r], now);
      && (r.verdict == Some(Pass) ==> state == Passing)
      && (r.verdict == Some(Fail) ==> state == Failing)
      && (r.verdict == Some(Inconclusive) ==> state == if check.inconclusivePolicy == Block then InconclusiveState else Passing)
  {
    var after := journal + [r];
    forall j | 0 <= j < |after| && Counted(check, after[j])
      ensures after[j].observedAt <= r.observedAt
    {
      if j < |journal| {
        assert after[j] in journal;
      }
    }
    assert NewestVerdict(check, after, |journal|);
    StateExactly(digest, check, after, now);
  }

  // Evidence of a mechanical check is fresh exactly until its bound, while its newest attempt is the one cited.
  lemma MechanicalEvidenceExactly(digest: DigestFn, journal: Journal, now: Instant, e: Evidence, k: nat)
    requires NewestAttempt(journal, e.name, k) && journal[k].basis == Mechanical
    ensures EvidenceStale(digest, journal, now, e, {}) <==>
      digest(journal[k]) != e.digest || e.freshUntil.None? || e.freshUntil.value < now
  {
    AttemptIsNewest(journal, e.name, k);
  }

  /** The state shows the newest verdict and the fault the newest attempt. */
  method EvaluateState(digest: DigestFn, check: ResolvedCheck, journal: Journal, now: Instant) returns (e: CheckEvaluation)
    ensures e == CheckEvaluation(StateOf(digest, check, journal, now), FaultOf(check, journal))
    ensures e.state == NeverRun <==> forall r :: r in journal ==> !Counted(check, r)
    ensures forall k: nat :: NewestVerdict(check, journal, k) ==> StateShows(digest, check, journal, now, journal[k], e.state)
    ensures forall k: nat :: NewestAttempt(journal, check.id, k) ==> FaultShows(check, journal[k], e.fault)
  {
    StateExactly(digest, check, journal, now);
    FaultExactly(check, journal);
    var fault := FaultOf(check, journal);
    var state := ReadState(digest, check, journal, now);
    e := CheckEvaluation(state, fault);
  }

  method ReadState(digest: DigestFn, check: ResolvedCheck, journal: Journal, now: Instant) returns (state: CheckState)
    ensures state == StateOf(digest, check, journal, now)
  {
    var latest := LatestVerdict(journal, check);
    if latest.None? {
      return NeverRun;
    }
    var r := latest.value;
    var expiresAt := ExpiresAt(r.observedAt, check.freshForSeconds);
    var stale := false;
    if check.basis == Judged {
      for k := 0 to |r.evidence|
        invariant forall x :: x in r.evidence[..k] ==> !EvidenceStale(digest, journal, now, x, {})
      {
        var visiting;
        stale, visiting := EvidenceIsStale(digest, journal, now, r.evidence[k], {});
        if stale {
          assert r.evidence[k] in r.evidence;
          break;
        }
      }
    }
    if (expiresAt.Some? && expiresAt.value < now) || stale {
      return Stale;
    }
    state :=
      match r.verdict
      case Some(Pass) => Passing
      case Some(Fail) => Failing
      case Some(Inconclusive) => if check.inconclusivePolicy == Block then InconclusiveState else Passing
      case None => NeverRun;
  }

  // ---- Citation chains ----

  // The latest attempt of the check `a` names is a judgment that cites `b`.
  ghost predicate Link(journal: Journal, a: Evidence, b: Evidence) {
    var latest := LatestAttempt(journal, a.name);
    latest.Some? && latest.value.basis == Judged && b in latest.value.evidence
  }

  ghost predicate Chain(journal: Journal, c: seq<Evidence>) {
    c != [] && (|c| == 1 || (Link(journal, c[0], c[1]) && Chain(journal, c[1..])))
  }

  // The link is expired, missing or different from the latest attempt.
  ghost predicate Broken(digest: DigestFn, journal: Journal, now: Instant, e: Evidence) {
    || Expired(e, now)
    || LatestAttempt(journal, e.name).None?
    || digest(LatestAttempt(journal, e.name).value) != e.digest
  }

  ghost function Last(c: seq<Evidence>): Evidence
    requires c != []
  {
    c[|c| - 1]
  }

  ghost predicate Repeats(c: seq<Evidence>, path: set<string>)
    requires c != []
  {
    Last(c).name in path || exists i :: 0 <= i < |c| - 1 && c[i].name == Last(c).name
  }

  ghost predicate BadChain(digest: DigestFn, journal: Journal, now: Instant, e: Evidence, path: set<string>, c: seq<Evidence>) {
    && Chain(journal, c) && c[0] == e
    && (Broken(digest, journal, now, Last(c)) || Repeats(c, path))
  }

  lemma {:induction false} StaleHasBadChain(digest: DigestFn, journal: Journal, now: Instant, e: Evidence, path: set<string>)
    returns (c: seq<Evidence>)
    requires EvidenceStale(digest, journal, now, e, path)
    ensures BadChain(digest, journal, now, e, path, c)
    decreases Names(journal) - path
  {
    c := [e];
    if !Broken(digest, journal, now, e) && e.name !in path {
      var latest := LatestAttempt(journal, e.name).value;
      var nested :| nested in latest.evidence && EvidenceStale(digest, journal, now, nested, path + {e.name});
      var rest := StaleHasBadChain(digest, journal, now, nested, path + {e.name});
      c := [e] + rest;
      assert c[1..] == rest && Last(c) == Last(rest);
      if Repeats(rest, path + {e.name}) && Last(rest).name !in path {
        if Last(rest).name == e.name {
          assert c[0].name == Last(c).name;
        } else {
          var i :| 0 <= i < |rest| - 1 && rest[i].name == Last(rest).name;
          assert c[i + 1].name == Last(c).name;
        }
      }
    }
  }

  lemma {:induction false} BadChainIsStale(digest: DigestFn, journal: Journal, now: Instant, e: Evidence, path: set<string>, c: seq<Evidence>)
    requires BadChain(digest, journal, now, e, path, c)
    ensures EvidenceStale(digest, journal, now, e, path)
    decreases |c|
  {
    if |c| > 1 && !Broken(digest, journal, now, e) && e.name !in path {
      var rest := c[1..];
      assert Last(c) == Last(rest);
      if Repeats(c, path) && Last(c).name !in path {
        var i :| 0 <= i < |c| - 1 && c[i].name == Last(c).name;
        if i > 0 {
          assert rest[i - 1].name == Last(rest).name;
        }
      }
      BadChainIsStale(digest, journal, now, rest[0], path + {e.name}, rest);
    }
  }

  /** A citation is stale exactly when some chain of citations from it ends expired, missing or
      different, or comes back to a name. */
  lemma StaleExactlyOnBadChain(digest: DigestFn, journal: Journal, now: Instant, e: Evidence)
    ensures EvidenceStale(digest, journal, now, e, {}) <==> exists c :: BadChain(digest, journal, now, e, {}, c)
  {
    if EvidenceStale(digest, journal, now, e, {}) {
      var c := StaleHasBadChain(digest, journal, now, e, {});
    }
    if c :| BadChain(digest, journal, now, e, {}, c) {
      BadChainIsStale(digest, journal, now, e, {}, c);
    }
  }

  // ---- Time and new receipts ----

  /** For a fixed journal, staleness is final. */
  lemma StaleStaysStale(digest: DigestFn, check: ResolvedCheck, journal: Journal, now: Instant, later: Instant)
    requires now <= later && StateOf(digest, check, journal, now) == Stale
    ensures StateOf(digest, check, journal, later) == Stale
  {
    var r := LatestVerdict(journal, check).value;
    if check.basis == Judged {
      if e :| e in r.evidence && EvidenceStale(digest, journal, now, e, {}) {
        var c := StaleHasBadChain(digest, journal, now, e, {});
        BadChainIsStale(digest, journal, later, e, {}, c);
      }
    }
  }

  lemma LatestIgnores(journal: Journal, r: Receipt, keep: Receipt -> bool, time: Receipt -> Instant)
    requires !keep(r)
    ensures Latest(journal + [r], keep, time) == Latest(journal, keep, time)
  {
    assert (journal + [r])[..|journal|] == journal;
  }

  /** A failed attempt is recorded as a fault and never changes the state of a mechanical
      check. */
  lemma ErrorKeepsMechanicalState(digest: DigestFn, check: ResolvedCheck, journal: Journal, now: Instant, r: Receipt)
    requires check.basis == Mechanical && r.verdict.None?
    ensures StateOf(digest, check, journal + [r], now) == StateOf(digest, check, journal, now)
  {
    LatestIgnores(journal, r, (x: Receipt) => CountsAsVerdict(check, x), ObservedAt);
  }

  lemma OtherAttemptsStay(journal: Journal, r: Receipt, name: string)
    requires r.check != name
    ensures LatestAttempt(journal + [r], name) == LatestAttempt(journal, name)
  {
    LatestIgnores(journal, r, (x: Receipt) => x.check == name, CompletedAt);
  }

  lemma AppendedIsLatest(journal: Journal, r: Receipt)
    requires forall x :: x in journal && x.check == r.check ==> x.completedAt <= r.completedAt
    ensures LatestAttempt(journal + [r], r.check) == Some(r)
  {
    assert (journal + [r])[..|journal|] == journal;
  }

  lemma PrependToBadChain(digest: DigestFn, journal: Journal, now: Instant, e: Evidence, rest: seq<Evidence>)
    requires rest != [] && Link(journal, e, rest[0]) && BadChain(digest, journal, now, rest[0], {}, rest)
    ensures BadChain(digest, journal, now, e, {}, [e] + rest)
  {
    var c := [e] + rest;
    assert c[1..] == rest && Last(c) == Last(rest);
    if Repeats(rest, {}) {
      var i :| 0 <= i < |rest| - 1 && rest[i].name == Last(rest).name;
      assert c[i + 1].name == Last(c).name;
    }
  }

  lemma {:induction false} RerunBreaksChain(digest: DigestFn, journal: Journal, now: Instant, r: Receipt, c: seq<Evidence>)
    returns (d: seq<Evidence>)
    requires Chain(journal, c) && Last(c).name == r.check
    requires forall x :: x in journal && x.check == r.check ==> x.completedAt <= r.completedAt
    requires forall x :: x in c && x.name == r.check ==> x.digest != digest(r)
    ensures BadChain(digest, journal + [r], now, c[0], {}, d)
    decreases |c|
  {
    assert c[0] in c;
    if c[0].name == r.check {
      AppendedIsLatest(journal, r);
      d := [c[0]];
    } else {
      OtherAttemptsStay(journal, r, c[0].name);
      assert c[1..][0] == c[1] && forall x :: x in c[1..] ==> x in c;
      var rest := RerunBreaksChain(digest, journal, now, r, c[1..]);
      PrependToBadChain(digest, journal + [r], now, c[0], rest);
      d := [c[0]] + rest;
    }
  }

  /** A newer run of a check that a judgment cites, directly or through other judgments,
      makes that judgment stale. */
  lemma RerunMakesCitingJudgmentStale(digest: DigestFn, check: ResolvedCheck, journal: Journal, now: Instant,
                                      r: Receipt, c: seq<Evidence>)
    requires check.basis == Judged && r.check != check.id
    requires LatestVerdict(journal, check).Some?
    requires Chain(journal, c) && c[0] in LatestVerdict(journal, check).value.evidence && Last(c).name == r.check
    requires forall x :: x in journal && x.check == r.check ==> x.completedAt <= r.completedAt
    requires forall x :: x in c && x.name == r.check ==> x.digest != digest(r)
    ensures StateOf(digest, check, journal + [r], now) == Stale
  {
    LatestIgnores(journal, r, (x: Receipt) => CountsAsVerdict(check, x), ObservedAt);
    var d := RerunBreaksChain(digest, journal, now, r, c);
    BadChainIsStale(digest, journal + [r], now, c[0], {}, d);
  }
}
