/** The model-diff endpoint (web/app/api/diff/route.ts): evaluate the same
    facts against two model directories and report which controls and which
    unanswered questions appear or disappear. The report has the shape the
    command-line `diff` prints, so it reuses `RiskCtl.DiffReport`. */
module DiffRoute {
  import opened Values
  import opened Order
  import opened FactPaths
  import opened Requirements
  import opened Evaluator
  import RiskCtl

  /** `setDiff(a, b).sort()`, where `xs` is the insertion order of the set `a`:
      the members of `a` outside `b`, filtered in order, then sorted. */
  function SortedDiff(xs: seq<string>, b: set<string>): seq<string> {
    Sort(FilterOut(xs, b))
  }

  /** However the first set was filled, the sorted difference is the sorted
      set difference. */
  lemma SortedDiffIsSetDifference(xs: seq<string>, b: set<string>)
    requires Distinct(xs)
    ensures SortedDiff(xs, b) == SortedSet((set x | x in xs) - b)
  {
    var f := FilterOut(xs, b);
    FilterOutDistinct(xs, b);
    SortDistinct(f);
    var kept := set x | x in f;
    var wanted := (set x | x in xs) - b;
    assert kept == wanted by {
      assert forall x :: x in kept <==> x in wanted;
    }
  }

  /** `missingFromRequired(required, facts)`: the required paths whose fact is
      undefined or null, each added once, in order of first appearance. */
  method MissingFromRequired(required: seq<string>, facts: Value) returns (missing: seq<string>)
    ensures Distinct(missing)
    ensures forall p :: p in missing <==> p in required && FactAt(Js, facts, p) == Null
  {
    missing := [];
    var i := 0;
    while i < |required|
      invariant 0 <= i <= |required|
      invariant Distinct(missing)
      invariant forall p :: p in missing <==> p in required[..i] && FactAt(Js, facts, p) == Null
    {
      assert required[..i + 1] == required[..i] + [required[i]];
      var qpath := required[i];
      var v := Walk(Js, facts, qpath);
      if (v.None? || v.value == Null) && qpath !in missing {
        missing := missing + [qpath];
      }
      i := i + 1;
    }
    assert required[..i] == required;
  }

  /** The ids of the derived-control views, in order. */
  function ViewIds(views: seq<ControlView>): (ids: seq<string>)
    ensures |ids| == |views| && forall i | 0 <= i < |views| :: ids[i] == views[i].id
  {
    seq(|views|, i requires 0 <= i < |views| => views[i].id)
  }

  /** The views `evaluateFacts` builds carry the derived control ids, sorted. */
  lemma ViewIdsAre(facts: Value, m: Model, views: seq<ControlView>)
    requires var derived := DerivedOf(facts, ListAt(m.rules, "rules"), CatalogOf(ListAt(m.catalog, "controls")));
      var links := if m.links.Some? then LinksOf(ListAt(m.links.value, "links")) else map[];
      var ids := SortedSet(derived.Keys);
      |views| == |ids|
      && forall i | 0 <= i < |ids| :: views[i] == ViewOf(ids[i], derived[ids[i]], links)
    ensures ViewIds(views) == SortedSet(ControlsOf(facts, m))
  {
    var ids := SortedSet(ControlsOf(facts, m));
    assert forall i | 0 <= i < |ids| :: views[i].id == ids[i];
  }

  /** The activated domains `evaluateFacts` reports for a model. */
  function DomainsOf(facts: Value, m: Model): seq<string> {
    SortedSet(ActivatedSet(facts, ListAt(m.triggers, "triggers")))
  }

  /** The control ids `evaluateFacts` derives for a model. */
  function ControlsOf(facts: Value, m: Model): set<string> {
    DerivedOf(facts, ListAt(m.rules, "rules"), CatalogOf(ListAt(m.catalog, "controls"))).Keys
  }

  /** The required questions a model leaves undefined or null. */
  function MissingSetOf(facts: Value, m: Model): set<string> {
    var required := RequiredIds(QuestionIds(m.baseQuestions), IdsOf(m.domainQuestions), DomainsOf(facts, m));
    set p | p in MissingOf(Js, required, facts)
  }

  /** The missing list, taken as the set the route builds. */
  lemma MissingAsSet(required: seq<string>, facts: Value, missing: seq<string>)
    requires forall p :: p in missing <==> p in required && FactAt(Js, facts, p) == Null
    ensures (set p | p in missing) == set p | p in MissingOf(Js, required, facts)
  {
    forall p ensures p in missing <==> p in MissingOf(Js, required, facts) {
      MissingMembers(Js, required, facts, p);
    }
  }

  /** One side of the comparison: the control ids and the missing paths of
      one evaluation, in the order the route collects them. */
  method EvaluateSide(facts: Value, m: Model) returns (domains: seq<string>, ids: seq<string>, missing: seq<string>)
    ensures domains == DomainsOf(facts, m)
    ensures Distinct(ids) && (set x | x in ids) == ControlsOf(facts, m)
    ensures Distinct(missing) && (set x | x in missing) == MissingSetOf(facts, m)
  {
    var e := EvaluateFacts(facts, m);
    domains := e.activatedDomains;
    ids := ViewIds(e.derivedControls);
    ViewIdsAre(facts, m, e.derivedControls);
    StrictlySortedDistinct(ids);
    missing := MissingOfSide(facts, m, domains);
  }

  /** The second half of one side: the required questions of the activated
      domains, then those the facts leave undefined or null. */
  method MissingOfSide(facts: Value, m: Model, domains: seq<string>) returns (missing: seq<string>)
    requires domains == DomainsOf(facts, m)
    ensures Distinct(missing) && (set x | x in missing) == MissingSetOf(facts, m)
  {
    var required := RequiredQuestionIds(m.baseQuestions, m.domainQuestions, domains);
    missing := MissingFromRequired(required, facts);
    MissingAsSet(required, facts, missing);
  }

  /** `POST /api/diff` for a validated request: the added and removed control
      ids and the newly and no longer missing questions, each sorted, and the
      activated domains of both models as evaluated. */
  method Diff(facts: Value, older: Model, newer: Model) returns (r: RiskCtl.DiffReport)
    ensures r == RiskCtl.Diff(ControlsOf(facts, older), ControlsOf(facts, newer),
      MissingSetOf(facts, older), MissingSetOf(facts, newer), DomainsOf(facts, older), DomainsOf(facts, newer))
  {
    var oldDomains, oldControls, missingOld := EvaluateSide(facts, older);
    var newDomains, newControls, missingNew := EvaluateSide(facts, newer);
    var addedControls := SortedDiff(newControls, set x | x in oldControls);
    var removedControls := SortedDiff(oldControls, set x | x in newControls);
    var newlyMissing := SortedDiff(missingNew, set x | x in missingOld);
    var noLongerMissing := SortedDiff(missingOld, set x | x in missingNew);
    SortedDiffIsSetDifference(newControls, set x | x in oldControls);
    SortedDiffIsSetDifference(oldControls, set x | x in newControls);
    SortedDiffIsSetDifference(missingNew, set x | x in missingOld);
    SortedDiffIsSetDifference(missingOld, set x | x in missingNew);
    r := RiskCtl.DiffReport(addedControls, removedControls, newlyMissing, noLongerMissing, oldDomains, newDomains);
  }

  /** A model compared with itself: nothing added, removed or changed. */
  lemma DiffSelf(facts: Value, m: Model)
    ensures var r := RiskCtl.Diff(ControlsOf(facts, m), ControlsOf(facts, m),
      MissingSetOf(facts, m), MissingSetOf(facts, m), DomainsOf(facts, m), DomainsOf(facts, m));
      r.addedControls == [] && r.removedControls == [] && r.newlyMissing == [] && r.noLongerMissing == []
  {
    var c := ControlsOf(facts, m);
    var q := MissingSetOf(facts, m);
    assert c - c == {} && q - q == {};
  }

  /** A question is newly missing exactly when the new model requires it, the
      facts leave it null or undefined, and the old model does not require it. */
  lemma NewlyMissingMeansNewRequirement(facts: Value, older: Model, newer: Model, p: string)
    ensures var r := RiskCtl.Diff(ControlsOf(facts, older), ControlsOf(facts, newer),
      MissingSetOf(facts, older), MissingSetOf(facts, newer), DomainsOf(facts, older), DomainsOf(facts, newer));
      p in r.newlyMissing <==>
        FactAt(Js, facts, p) == Null
        && p in RequiredIds(QuestionIds(newer.baseQuestions), IdsOf(newer.domainQuestions), DomainsOf(facts, newer))
        && p !in RequiredIds(QuestionIds(older.baseQuestions), IdsOf(older.domainQuestions), DomainsOf(facts, older))
  {
    MissingMembers(Js, RequiredIds(QuestionIds(newer.baseQuestions), IdsOf(newer.domainQuestions), DomainsOf(facts, newer)), facts, p);
    MissingMembers(Js, RequiredIds(QuestionIds(older.baseQuestions), IdsOf(older.domainQuestions), DomainsOf(facts, older)), facts, p);
  }

  // ---- The two engines ---------------------------------------------------------

  /** A question document the Python engine reads whose ids are all strings. */
  predicate StringQuestionIds(doc: Value) {
    RiskCtl.QuestionsDefined(doc) && forall q | q in RiskCtl.EntriesOf(doc, "questions") :: q.fields["id"].S?
  }

  /** On such a document the web engine collects the same ids, in the same
      order. */
  lemma EnginesAgreeOnQuestionIds(doc: Value)
    requires StringQuestionIds(doc)
    ensures QuestionIds(doc) == RiskCtl.QuestionIds(doc)
  {
    var qs := RiskCtl.EntriesOf(doc, "questions");
    assert ListAt(doc, "questions") == qs;
    assert forall i | 0 <= i < |qs| :: qs[i] in qs;
    IdsInOfObjects(qs);
  }

  /** Questions that are all mappings with a string `id` give their ids. */
  lemma {:induction false} IdsInOfObjects(qs: seq<Value>)
    requires forall i | 0 <= i < |qs| :: qs[i].M? && "id" in qs[i].fields && qs[i].fields["id"].S?
    ensures |IdsIn(qs)| == |qs| && forall i | 0 <= i < |qs| :: IdsIn(qs)[i] == qs[i].fields["id"].s
    decreases |qs|
  {
    if qs != [] {
      var n := |qs| - 1;
      IdsInOfObjects(qs[..n]);
      assert Prop(qs[n], "id") == Some(qs[n].fields["id"]);
    }
  }

  /** A boolean id is where the engines part: Python formats it as `True`,
      the web engine skips it. */
  lemma EnginesDivergeOnBooleanId(doc: Value)
    requires doc == M(map["questions" := L([M(map["id" := B(true)])])])
    ensures RiskCtl.QuestionsDefined(doc) && !StringQuestionIds(doc)
    ensures RiskCtl.QuestionIds(doc) == ["True"] && QuestionIds(doc) == []
  {
    var q := M(map["id" := B(true)]);
    assert RiskCtl.EntriesOf(doc, "questions") == [q];
    assert ListAt(doc, "questions") == [q];
    assert IdsIn([q]) == IdsIn([q][..0]) + [];
  }

  /** Hence both engines build the same required list from the same
      question documents, when all their ids are strings. */
  lemma EnginesAgreeOnRequired(baseDoc: Value, docs: map<string, Value>, activated: seq<string>)
    requires StringQuestionIds(baseDoc) && RiskCtl.DomainDocsDefined(docs)
    requires forall d | d in docs :: StringQuestionIds(docs[d])
    ensures RequiredIds(QuestionIds(baseDoc), IdsOf(docs), activated)
      == RequiredIds(RiskCtl.QuestionIds(baseDoc), RiskCtl.IdsOf(docs), activated)
  {
    EnginesAgreeOnQuestionIds(baseDoc);
    forall d | d in docs ensures IdsOf(docs)[d] == RiskCtl.IdsOf(docs)[d] {
      EnginesAgreeOnQuestionIds(docs[d]);
    }
    assert IdsOf(docs) == RiskCtl.IdsOf(docs);
  }
}
