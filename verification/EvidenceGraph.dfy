/** crates/ostrom-core/src/check.rs, lines 46-276: judged checks cite other checks as
    evidence, and a catalogue is accepted only when no citation leads back. */
module EvidenceGraph {
  import opened Wrappers
  import opened Digraph
  import opened Text

  datatype Fault =
    | InvalidAgentParameters
    | JudgedEvidenceRequired
    | EvidenceSelfReference
    | EvidenceCycle
    | UnresolvedCheck
    | AmbiguousCheck

  // The `evidence` parameter as it was authored.
  datatype Authored = Absent | Malformed | References(names: seq<string>)

  // An action outside `agent/` is mechanical and cites nothing. `preludeValid` says
  // that the prompt, the model and the parameter names of an agent decode.
  datatype Definition = Mechanical | Agent(preludeValid: bool, evidence: Authored)

  type Definitions = map<string, Definition>

  // The cited names, if there are some, none is blank and none is repeated. Citing nothing at all is a fault
  // of its own, after those of the prelude.
  function AgentEvidence(d: Definition): (r: Result<seq<string>, Fault>)
    requires d.Agent?
    ensures r.Ok? ==> d.preludeValid && d.evidence == References(r.value)
    ensures r.Ok? ==> r.value != [] && Distinct(r.value) && forall n :: n in r.value ==> !Blank(n)
    ensures r == Err(JudgedEvidenceRequired) <==> d.preludeValid && d.evidence in [Absent, References([])]
    ensures r.Err? ==> r.error in [JudgedEvidenceRequired, InvalidAgentParameters]
    ensures r == Err(InvalidAgentParameters) ==>
      !d.preludeValid || d.evidence.Malformed? ||
      (d.evidence.References? && (!Distinct(d.evidence.names) || exists n :: n in d.evidence.names && Blank(n)))
  {
    if !d.preludeValid then Err(InvalidAgentParameters)
    else
      match d.evidence
      case Absent => Err(JudgedEvidenceRequired)
      case Malformed => Err(InvalidAgentParameters)
      case References(names) =>
        if names == [] then Err(JudgedEvidenceRequired)
        else if (exists n :: n in names && Blank(n)) || !Distinct(names) then Err(InvalidAgentParameters)
        else Ok(names)
  }

  // ---- Meaning ----

  ghost predicate Cites(definitions: Definitions, id: string, from: string) {
    && id in definitions && definitions[id].Agent?
    && AgentEvidence(definitions[id]).Ok?
    && from in AgentEvidence(definitions[id]).value
  }

  // Citations between local definitions.
  ghost function Citations(definitions: Definitions): Graph {
    set id, from | id in definitions && from in definitions && Cites(definitions, id, from) :: (id, from)
  }

  // The parameters decode and, in strict mode, every reference resolves.
  ghost predicate WellReferenced(definitions: Definitions, strict: bool, id: string)
    requires id in definitions
  {
    && (definitions[id].Agent? ==> AgentEvidence(definitions[id]).Ok?)
    && (strict ==> forall from :: Cites(definitions, id, from) ==> from in definitions)
  }

  ghost predicate Acceptable(definitions: Definitions, strict: bool) {
    && (forall id :: id in definitions ==> WellReferenced(definitions, strict, id))
    && Acyclic(Citations(definitions))
  }

  // What each fault claims about the definitions.
  ghost predicate Justified(definitions: Definitions, strict: bool, fault: Fault) {
    match fault
    case EvidenceCycle => exists id :: OnCycle(Citations(definitions), id)
    case EvidenceSelfReference => exists id :: Edge(Citations(definitions), id, id)
    case UnresolvedCheck => strict && exists id, from :: Cites(definitions, id, from) && from !in definitions
    case AmbiguousCheck => false
    case _ => exists id :: id in definitions && definitions[id].Agent? && AgentEvidence(definitions[id]) == Err(fault)
  }

  lemma JustifiedIsUnacceptable(definitions: Definitions, strict: bool, fault: Fault)
    requires Justified(definitions, strict, fault)
    ensures !Acceptable(definitions, strict)
  {
    match fault
    case EvidenceSelfReference =>
      var id :| Edge(Citations(definitions), id, id);
      EdgeLeads(Citations(definitions), id, id);
      assert OnCycle(Citations(definitions), id);
    case UnresolvedCheck =>
      var id, from :| Cites(definitions, id, from) && from !in definitions;
      assert !WellReferenced(definitions, strict, id);
    case _ =>
  }

  // ---- The three-colour search ----

  // Finished nodes are sound, cite finished nodes only, and lie on no cycle.
  ghost predicate Finished(definitions: Definitions, strict: bool, visited: set<string>) {
    && visited <= definitions.Keys
    && (forall id :: id in visited ==> WellReferenced(definitions, strict, id) && !OnCycle(Citations(definitions), id))
    && Closed(Citations(definitions), visited)
  }

  lemma FinishNode(definitions: Definitions, strict: bool, visited: set<string>, id: string)
    requires Finished(definitions, strict, visited)
    requires id in definitions && WellReferenced(definitions, strict, id)
    requires forall from :: Edge(Citations(definitions), id, from) ==> from in visited
    ensures Finished(definitions, strict, visited + {id})
  {
    var g := Citations(definitions);
    if id !in visited && OnCycle(g, id) {
      var next := FirstEdge(g, id, id);
      if next != id {
        LeadsStaysInside(g, visited, next, id);
      }
    }
  }

  /** `visiting` holds the nodes on the current path, each of which leads to `id`.
      Meeting one of them again closes a cycle. */
  method Visit(id: string, definitions: Definitions, strict: bool, visiting0: set<string>, visited0: set<string>)
    returns (r: Result<(), Fault>, visiting: set<string>, visited: set<string>)
    requires id in definitions && visiting0 <= definitions.Keys
    requires forall x :: x in visiting0 ==> Leads(Citations(definitions), x, id)
    requires Finished(definitions, strict, visited0)
    ensures r.Ok? ==> visiting == visiting0 && visited0 + {id} <= visited && Finished(definitions, strict, visited)
    ensures r.Err? ==> Justified(definitions, strict, r.error)
    decreases definitions.Keys - visiting0
  {
    visiting, visited := visiting0, visited0;
    if id in visited {
      return Ok(()), visiting, visited;
    }
    if id in visiting {
      assert OnCycle(Citations(definitions), id);
      return Err(EvidenceCycle), visiting, visited;
    }
    visiting := visiting + {id};
    ghost var g := Citations(definitions);
    if definitions[id].Agent? {
      var evidence := AgentEvidence(definitions[id]);
      if evidence.Err? {
        return Err(evidence.error), visiting, visited;
      }
      for k := 0 to |evidence.value|
        invariant visiting == visiting0 + {id}
        invariant visited0 <= visited && Finished(definitions, strict, visited)
        invariant forall from :: from in evidence.value[..k] ==>
          if from in definitions then from in visited else !strict
      {
        var from := evidence.value[k];
        assert Cites(definitions, id, from);
        if from == id {
          assert Edge(g, id, id);
          return Err(EvidenceSelfReference), visiting, visited;
        }
        if from in definitions {
          assert Edge(g, id, from);
          EdgeLeads(g, id, from);
          forall x | x in visiting
            ensures Leads(g, x, from)
          {
            if x != id {
              LeadsTransitive(g, x, id, from);
            }
          }
          r, visiting, visited := Visit(from, definitions, strict, visiting, visited);
          if r.Err? {
            return;
          }
        } else if strict {
          return Err(UnresolvedCheck), visiting, visited;
        }
      }
    }
    FinishNode(definitions, strict, visited, id);
    visiting, visited := visiting - {id}, visited + {id};
    r := Ok(());
  }

  lemma CycleIsLocal(definitions: Definitions, id: string)
    ensures OnCycle(Citations(definitions), id) ==> id in definitions
  {
    if OnCycle(Citations(definitions), id) {
      var next := FirstEdge(Citations(definitions), id, id);
    }
  }

  /** Accepts exactly the acyclic sets of definitions whose references are in order, and
      every refusal has a witness. */
  method ValidateEvidenceCycles(definitions: Definitions, strict: bool) returns (r: Result<(), Fault>)
    ensures r.Ok? <==> Acceptable(definitions, strict)
    ensures r.Err? ==> Justified(definitions, strict, r.error)
  {
    var visiting: set<string>, visited: set<string> := {}, {};
    var left := definitions.Keys;
    while left != {}
      invariant visiting == {} && Finished(definitions, strict, visited)
      invariant definitions.Keys == visited + left
      decreases left
    {
      var id :| id in left;
      r, visiting, visited := Visit(id, definitions, strict, visiting, visited);
      if r.Err? {
        JustifiedIsUnacceptable(definitions, strict, r.error);
        return;
      }
      left := left - {id};
    }
    forall a
      ensures !OnCycle(Citations(definitions), a)
    {
      CycleIsLocal(definitions, a);
    }
    r := Ok(());
  }

  // ---- In terms of the authored citations ----

  // The definition is an agent whose authored evidence names `from`.
  predicate AuthoredCitation(definitions: Definitions, id: string, from: string) {
    id in definitions && definitions[id].Agent? && definitions[id].evidence.References? && from in definitions[id].evidence.names
  }

  // Every agent has a valid prelude and cites something, each name once and none blank.
  predicate WellAuthored(definitions: Definitions) {
    forall id :: id in definitions && definitions[id].Agent? ==>
      && definitions[id].preludeValid && definitions[id].evidence.References?
      && var names := definitions[id].evidence.names;
         names != [] && Distinct(names) && forall n :: n in names ==> exists c :: c in n && !Whitespace(c)
  }

  lemma CitesAsAuthored(definitions: Definitions, id: string)
    requires WellAuthored(definitions) && id in definitions
    ensures definitions[id].Agent? ==> AgentEvidence(definitions[id]).Ok?
    ensures forall from :: Cites(definitions, id, from) <==> AuthoredCitation(definitions, id, from)
  {
    if definitions[id].Agent? {
      forall n | n in definitions[id].evidence.names
        ensures !Blank(n)
      {
        var c :| c in n && !Whitespace(c);
      }
    }
  }

  // Each name on the path cites the next.
  ghost predicate CitationPath(definitions: Definitions, path: seq<string>) {
    |path| > 1 && forall i :: 0 <= i < |path| - 1 ==> AuthoredCitation(definitions, path[i], path[i + 1])
  }

  lemma {:induction false} PathLeads(definitions: Definitions, path: seq<string>)
    requires WellAuthored(definitions) && CitationPath(definitions, path)
    requires forall i :: 0 <= i < |path| ==> path[i] in definitions
    ensures Leads(Citations(definitions), path[0], path[|path| - 1])
    decreases |path|
  {
    assert AuthoredCitation(definitions, path[0], path[1]);
    CitesAsAuthored(definitions, path[0]);
    assert Edge(Citations(definitions), path[0], path[1]);
    EdgeLeads(Citations(definitions), path[0], path[1]);
    if |path| > 2 {
      var rest := path[1..];
      forall i | 0 <= i < |rest| - 1
        ensures AuthoredCitation(definitions, rest[i], rest[i + 1])
      {
        assert AuthoredCitation(definitions, path[i + 1], path[i + 1 + 1]);
      }
      PathLeads(definitions, rest);
      LeadsTransitive(Citations(definitions), path[0], path[1], path[|path| - 1]);
    }
  }

  /** A path of citations that comes back to its start is refused. */
  lemma ReturningPathIsRefused(definitions: Definitions, strict: bool, path: seq<string>)
    requires WellAuthored(definitions) && CitationPath(definitions, path) && path[0] == path[|path| - 1]
    ensures !Acceptable(definitions, strict)
  {
    forall i | 0 <= i < |path|
      ensures path[i] in definitions
    {
      if i < |path| - 1 {
        assert AuthoredCitation(definitions, path[i], path[i + 1]);
      } else {
        assert AuthoredCitation(definitions, path[0], path[1]);
      }
    }
    PathLeads(definitions, path);
    assert OnCycle(Citations(definitions), path[0]);
  }

  // Each citation between definitions goes to a smaller number.
  ghost predicate Layered(definitions: Definitions, layer: string -> nat) {
    forall id, from :: AuthoredCitation(definitions, id, from) && from in definitions ==> layer(from) < layer(id)
  }

  lemma {:induction false} WalkGoesDown(definitions: Definitions, layer: string -> nat, n: nat, a: string, b: string)
    requires Layered(definitions, layer) && Walk(Citations(definitions), n, a, b)
    ensures n > 0 ==> layer(b) < layer(a)
    ensures n == 0 ==> a == b
  {
    if n > 0 {
      var c :| Edge(Citations(definitions), a, c) && Walk(Citations(definitions), n - 1, c, b);
      assert AuthoredCitation(definitions, a, c);
      WalkGoesDown(definitions, layer, n - 1, c, b);
    }
  }

  // A citation goes to a check whose own citations go on from there, never back: such catalogues are accepted.
  lemma LayeredIsAccepted(definitions: Definitions, strict: bool, layer: string -> nat)
    requires WellAuthored(definitions) && Layered(definitions, layer)
    requires strict ==> forall id, from :: AuthoredCitation(definitions, id, from) ==> from in definitions
    ensures Acceptable(definitions, strict)
  {
    forall id | id in definitions
      ensures WellReferenced(definitions, strict, id)
    {
      CitesAsAuthored(definitions, id);
    }
    forall a
      ensures !OnCycle(Citations(definitions), a)
    {
      if OnCycle(Citations(definitions), a) {
        var n: nat :| n > 0 && Walk(Citations(definitions), n, a, a);
        WalkGoesDown(definitions, layer, n, a, a);
      }
    }
  }

  // What nothing excuses: an agent that is not well authored and, in strict mode, a reference to nothing.
  lemma RefusedWhenMalformed(definitions: Definitions, strict: bool)
    ensures !WellAuthored(definitions) ==> !Acceptable(definitions, strict)
    ensures strict && WellAuthored(definitions) && (exists id, from :: AuthoredCitation(definitions, id, from) && from !in definitions) ==>
      !Acceptable(definitions, strict)
  {
    if !WellAuthored(definitions) {
      var id :| id in definitions && definitions[id].Agent? &&
        !(&& definitions[id].preludeValid && definitions[id].evidence.References?
          && var names := definitions[id].evidence.names;
             names != [] && Distinct(names) && forall n :: n in names ==> exists c :: c in n && !Whitespace(c));
      assert AgentEvidence(definitions[id]).Err?;
      assert !WellReferenced(definitions, strict, id);
    } else if strict {
      if id, from :| AuthoredCitation(definitions, id, from) && from !in definitions {
        CitesAsAuthored(definitions, id);
        assert !WellReferenced(definitions, strict, id);
      }
    }
  }

  // ---- Several catalogues read as one ----

  // A later catalogue replaces an earlier definition of the same name.
  function Composed(catalogues: seq<Definitions>): Definitions {
    if catalogues == [] then map[]
    else Composed(catalogues[..|catalogues| - 1]) + catalogues[|catalogues| - 1]
  }

  ghost predicate DefinedTwice(catalogues: seq<Definitions>, id: string) {
    exists i, j :: 0 <= i < j < |catalogues| && id in catalogues[i] && id in catalogues[j]
  }

  lemma {:induction false} ComposedKeys(catalogues: seq<Definitions>)
    ensures forall id :: id in Composed(catalogues) <==> exists i :: 0 <= i < |catalogues| && id in catalogues[i]
  {
    if catalogues != [] {
      var rest := catalogues[..|catalogues| - 1];
      ComposedKeys(rest);
      forall id | id in Composed(rest)
        ensures exists i :: 0 <= i < |catalogues| && id in catalogues[i]
      {
        var i :| 0 <= i < |rest| && id in rest[i];
        assert id in catalogues[i];
      }
    }
  }

  /** Of several definitions of a name the last catalogue's stands. */
  lemma {:induction false} ComposedIsLast(catalogues: seq<Definitions>, i: nat, id: string)
    requires i < |catalogues| && id in catalogues[i]
    requires forall j :: i < j < |catalogues| ==> id !in catalogues[j]
    ensures id in Composed(catalogues) && Composed(catalogues)[id] == catalogues[i][id]
  {
    var n := |catalogues| - 1;
    if i < n {
      assert id !in catalogues[n];
      ComposedIsLast(catalogues[..n], i, id);
    }
  }

  lemma DuplicatesGrow(before: seq<Definitions>, last: Definitions, id: string)
    ensures DefinedTwice(before + [last], id) <==> DefinedTwice(before, id) || (id in Composed(before) && id in last)
  {
    ComposedKeys(before);
    var after := before + [last];
    if i, j :| 0 <= i < j < |after| && id in after[i] && id in after[j] {
      assert id in before[i];
    }
    if i, j :| 0 <= i < j < |before| && id in before[i] && id in before[j] {
      assert id in after[i] && id in after[j];
    }
    if id in Composed(before) && id in last {
      var i :| 0 <= i < |before| && id in before[i];
      assert id in after[i] && id in after[|before|];
    }
  }

  method Compose(catalogues: seq<Definitions>) returns (definitions: Definitions, duplicates: set<string>)
    ensures definitions == Composed(catalogues)
    ensures forall id :: id in duplicates <==> DefinedTwice(catalogues, id)
  {
    definitions, duplicates := map[], {};
    for k := 0 to |catalogues|
      invariant definitions == Composed(catalogues[..k])
      invariant forall id :: id in duplicates <==> DefinedTwice(catalogues[..k], id)
    {
      assert catalogues[..k + 1] == catalogues[..k] + [catalogues[k]];
      forall id
        ensures DefinedTwice(catalogues[..k + 1], id) <==>
          DefinedTwice(catalogues[..k], id) || (id in definitions && id in catalogues[k])
      {
        DuplicatesGrow(catalogues[..k], catalogues[k], id);
      }
      duplicates := duplicates + definitions.Keys * catalogues[k].Keys;
      definitions := definitions + catalogues[k];
    }
    assert catalogues[..|catalogues|] == catalogues;
  }

  ghost predicate CitesADuplicate(catalogues: seq<Definitions>) {
    exists id, from :: Cites(Composed(catalogues), id, from) && DefinedTwice(catalogues, from)
  }

  /** A set of catalogues is accepted exactly when, read as one, it is acceptable with every
      reference resolved, and no reference names a check defined twice. */
  method ValidateCatalogues(catalogues: seq<Definitions>) returns (r: Result<(), Fault>)
    ensures r.Ok? <==> Acceptable(Composed(catalogues), true) && !CitesADuplicate(catalogues)
  {
    var definitions, duplicates := Compose(catalogues);
    var left := definitions.Keys;
    while left != {}
      invariant left <= definitions.Keys
      invariant forall id, from :: id in definitions && id !in left && Cites(definitions, id, from) ==> from !in duplicates
      decreases left
    {
      var id :| id in left;
      left := left - {id};
      if definitions[id].Agent? {
        var evidence := AgentEvidence(definitions[id]);
        if evidence.Err? {
          return Err(evidence.error);
        }
        for k := 0 to |evidence.value|
          invariant forall from :: from in evidence.value[..k] ==> from !in duplicates
        {
          assert Cites(definitions, id, evidence.value[k]);
          if evidence.value[k] in duplicates {
            return Err(AmbiguousCheck);
          }
          if evidence.value[k] !in definitions {
            assert !WellReferenced(definitions, true, id);
            return Err(UnresolvedCheck);
          }
        }
      }
    }
    r := ValidateEvidenceCycles(definitions, true);
  }
}
