/** The web evaluator (web/src/lib/evaluator.ts): the same derivation as the
    command-line engine, written defensively. Every document is read as an
    arbitrary parsed value; whatever has the wrong shape is skipped instead of
    raising. Files that cannot be read are passed in as absent. */
module Evaluator {
  import opened Values
  import opened Order
  import opened FactPaths
  import opened Conditions
  import opened Requirements

  // ---- Reading documents defensively ---------------------------------------

  /** `x ?? {}` of a list element. */
  function OrEmpty(x: Value): (r: Value)
    ensures x.Null? ==> r == M(map[])
    ensures !x.Null? ==> r == x
  {
    Nullish(Some(x), M(map[]))
  }

  /** `doc && typeof doc === "object" && name in doc ? doc[name] : []`, then
      kept only when it is an array. */
  function ListAt(doc: Value, name: string): (xs: seq<Value>)
    ensures doc.M? && name in doc.fields && doc.fields[name].L? ==> xs == doc.fields[name].items
    ensures !(doc.M? && name in doc.fields && doc.fields[name].L?) ==> xs == []
  {
    match Prop(doc, name).GetOr(L([]))
    case L(items) => items
    case _ => []
  }

  /** `(t ?? {}).when ?? {}`: the condition of a trigger or rule. */
  function CondOf(t: Value): (c: Value)
    ensures Prop(OrEmpty(t), "when").None? ==> c == M(map[])
  {
    Nullish(Prop(OrEmpty(t), "when"), M(map[]))
  }

  /** The string elements of an array, in order; the rest are skipped. */
  function StringsIn(xs: seq<Value>): (r: seq<string>)
    ensures forall s :: s in r <==> S(s) in xs
    ensures |r| <= |xs|
    decreases |xs|
  {
    if xs == [] then []
    else
      var n := |xs| - 1;
      StringsIn(xs[..n]) + (if xs[n].S? then [xs[n].s] else [])
  }

  /** `for (const x of v) if (typeof x === "string") ...` when `v` is an
      array; nothing otherwise. */
  function StringListAt(t: Value, name: string): seq<string> {
    match Prop(OrEmpty(t), name)
    case Some(L(xs)) => StringsIn(xs)
    case _ => []
  }

  // ---- deriveActivatedDomains ------------------------------------------------

  /** The domains the matching triggers list. */
  function ActivatedSet(facts: Value, ts: seq<Value>): set<string> {
    set t, d | t in ts && TsMatches(facts, CondOf(t)) && d in StringListAt(t, "activate") :: d
  }

  /** The domains one trigger contributes. */
  function Contribution(facts: Value, t: Value): set<string> {
    if TsMatches(facts, CondOf(t)) then set d | d in StringListAt(t, "activate") else {}
  }

  lemma ActivatedSnoc(facts: Value, ts: seq<Value>, t: Value)
    ensures ActivatedSet(facts, ts + [t]) == ActivatedSet(facts, ts) + Contribution(facts, t)
  {
    forall d | d in ActivatedSet(facts, ts + [t]) ensures d in ActivatedSet(facts, ts) + Contribution(facts, t) {
      var u :| u in ts + [t] && TsMatches(facts, CondOf(u)) && d in StringListAt(u, "activate");
      if u != t {
        assert u in ts;
      }
    }
    forall d | d in ActivatedSet(facts, ts) + Contribution(facts, t) ensures d in ActivatedSet(facts, ts + [t]) {
      if d in ActivatedSet(facts, ts) {
        var u :| u in ts && TsMatches(facts, CondOf(u)) && d in StringListAt(u, "activate");
        assert u in ts + [t];
      } else {
        assert t in ts + [t];
      }
    }
  }

  lemma ActivatedStep(facts: Value, ts: seq<Value>, i: nat)
    requires i < |ts|
    ensures ActivatedSet(facts, ts[..i + 1]) == ActivatedSet(facts, ts[..i]) + Contribution(facts, ts[i])
  {
    assert ts[..i + 1] == ts[..i] + [ts[i]];
    ActivatedSnoc(facts, ts[..i], ts[i]);
  }

  /** `activated.add(d)` for each string: a JavaScript `Set` keeps its first
      insertion order and never repeats. */
  method AddAll(activated: seq<string>, ds: seq<string>) returns (r: seq<string>)
    requires Distinct(activated)
    ensures Distinct(r) && |activated| <= |r| && r[..|activated|] == activated
    ensures forall x :: x in r <==> x in activated || x in ds
  {
    r := activated;
    var j := 0;
    while j < |ds|
      invariant 0 <= j <= |ds|
      invariant Distinct(r) && |activated| <= |r| && r[..|activated|] == activated
      invariant forall x :: x in r <==> x in activated || x in ds[..j]
    {
      assert ds[..j + 1] == ds[..j] + [ds[j]];
      if ds[j] !in r {
        r := r + [ds[j]];
      }
      j := j + 1;
    }
    assert ds[..j] == ds;
  }

  /** One trigger's turn: its domains are added when its condition matches. */
  method AddTrigger(activated: seq<string>, facts: Value, t: Value) returns (r: seq<string>)
    requires Distinct(activated)
    ensures Distinct(r)
    ensures (set x | x in r) == (set x | x in activated) + Contribution(facts, t)
  {
    r := activated;
    if TsMatches(facts, CondOf(t)) {
      r := AddAll(activated, StringListAt(t, "activate"));
    }
  }

  /** The trigger loop: the domains of the matching triggers, each once, in
      first-insertion order. */
  method ActivatedList(facts: Value, ts: seq<Value>) returns (activated: seq<string>)
    ensures Distinct(activated)
    ensures (set x | x in activated) == ActivatedSet(facts, ts)
  {
    activated := [];
    var i := 0;
    while i < |ts|
      invariant 0 <= i <= |ts|
      invariant Distinct(activated)
      invariant (set x | x in activated) == ActivatedSet(facts, ts[..i])
    {
      ActivatedStep(facts, ts, i);
      activated := AddTrigger(activated, facts, ts[i]);
      i := i + 1;
    }
    assert ts[..i] == ts;
  }

  /** `deriveActivatedDomains(facts, paths)`: the set of domains of the
      matching triggers, sorted. */
  method DeriveActivatedDomains(facts: Value, triggersDoc: Value) returns (domains: seq<string>)
    ensures domains == SortedSet(ActivatedSet(facts, ListAt(triggersDoc, "triggers")))
  {
    var activated := ActivatedList(facts, ListAt(triggersDoc, "triggers"));
    SortDistinct(activated);
    domains := Sort(activated);
  }

  /** A string `activate` is not an array and activates nothing here, where
      the command-line engine iterates its characters. */
  lemma StringActivateIgnored(facts: Value)
    ensures ActivatedSet(facts, [M(map["activate" := S("ai")])]) == {}
  {
    var t := M(map["activate" := S("ai")]);
    assert StringListAt(t, "activate") == [];
  }

  // ---- deriveControls --------------------------------------------------------

  /** `catalog.set(id, cc)` for each control whose `id` is a string; the last
      control with an id wins. */
  function CatalogOf(controls: seq<Value>): map<string, Value>
    decreases |controls|
  {
    if controls == [] then map[]
    else
      var n := |controls| - 1;
      var cc := OrEmpty(controls[n]);
      var front := CatalogOf(controls[..n]);
      match Prop(cc, "id")
      case Some(S(id)) => front[id := cc]
      case _ => front
  }

  /** The catalog holds an id exactly when some control carries it as a string
      `id`, and then holds the last such control. */
  lemma {:induction false} CatalogOfAt(controls: seq<Value>, id: string)
    ensures id in CatalogOf(controls) <==> exists i | 0 <= i < |controls| :: Prop(OrEmpty(controls[i]), "id") == Some(S(id))
    ensures id in CatalogOf(controls) ==> exists i | 0 <= i < |controls| ::
      Prop(OrEmpty(controls[i]), "id") == Some(S(id)) && CatalogOf(controls)[id] == OrEmpty(controls[i])
      && forall j | i < j < |controls| :: Prop(OrEmpty(controls[j]), "id") != Some(S(id))
    decreases |controls|
  {
    if controls != [] {
      var n := |controls| - 1;
      var front := controls[..n];
      CatalogOfAt(front, id);
      forall i | 0 <= i < n ensures front[i] == controls[i] {
      }
      if Prop(OrEmpty(controls[n]), "id") != Some(S(id)) && id in CatalogOf(controls) {
        var i :| 0 <= i < n && Prop(OrEmpty(front[i]), "id") == Some(S(id)) && CatalogOf(front)[id] == OrEmpty(front[i])
          && forall j | i < j < n :: Prop(OrEmpty(front[j]), "id") != Some(S(id));
        assert forall j | i < j < |controls| :: Prop(OrEmpty(controls[j]), "id") != Some(S(id));
      }
    }
  }

  method BuildCatalog(controls: seq<Value>) returns (catalog: map<string, Value>)
    ensures catalog == CatalogOf(controls)
  {
    catalog := map[];
    var i := 0;
    while i < |controls|
      invariant 0 <= i <= |controls|
      invariant catalog == CatalogOf(controls[..i])
    {
      assert controls[..i + 1][..i] == controls[..i] && controls[..i + 1][i] == controls[i];
      var cc := OrEmpty(controls[i]);
      var id := Prop(cc, "id");
      if id.Some? && id.value.S? {
        catalog := catalog[id.value.s := cc];
      }
      i := i + 1;
    }
    assert controls[..i] == controls;
  }

  /** An entry of `derived`: the conditions that required the control and
      its catalog entry, `null` when the catalog lacks it. */
  datatype Derivation = Derivation(because: seq<Value>, control: Option<Value>)

  function CatalogGet(catalog: map<string, Value>, cid: string): Option<Value> {
    if cid in catalog then Some(catalog[cid]) else None
  }

  /** What one rule contributes: its condition, and the string ids of its
      `require` array when the condition matches (none otherwise). */
  datatype Firing = Firing(cond: Value, ids: seq<string>)

  function FiringOf(facts: Value, r: Value): (f: Firing)
    ensures f.cond == CondOf(r)
    ensures f.ids == if TsMatches(facts, CondOf(r)) then StringListAt(r, "require") else []
  {
    Firing(CondOf(r), if TsMatches(facts, CondOf(r)) then StringListAt(r, "require") else [])
  }

  function Firings(facts: Value, rules: seq<Value>): (fs: seq<Firing>)
    ensures |fs| == |rules| && forall i | 0 <= i < |rules| :: fs[i] == FiringOf(facts, rules[i])
  {
    seq(|rules|, i requires 0 <= i < |rules| => FiringOf(facts, rules[i]))
  }

  /** Create the entry on first use, then push the condition, for each id. */
  function PushAll(d: map<string, Derivation>, cids: seq<string>, cond: Value, catalog: map<string, Value>): map<string, Derivation>
    decreases |cids|
  {
    if cids == [] then d
    else
      var n := |cids| - 1;
      var front := PushAll(d, cids[..n], cond, catalog);
      var cid := cids[n];
      var e := if cid in front then front[cid] else Derivation([], CatalogGet(catalog, cid));
      front[cid := e.(because := e.because + [cond])]
  }

  /** `derived` after the rules, in order. */
  function Accumulate(fs: seq<Firing>, catalog: map<string, Value>): map<string, Derivation>
    decreases |fs|
  {
    if fs == [] then map[]
    else
      var n := |fs| - 1;
      PushAll(Accumulate(fs[..n], catalog), fs[n].ids, fs[n].cond, catalog)
  }

  /** `derived` after the rules: each matching rule pushes its condition
      onto every string id its `require` array lists. */
  function DerivedOf(facts: Value, rules: seq<Value>, catalog: map<string, Value>): map<string, Derivation> {
    Accumulate(Firings(facts, rules), catalog)
  }

  /** The provenance of a control: the condition of each rule, once per time
      the rule lists the control among its fired ids. */
  function BecauseOf(fs: seq<Firing>, cid: string): seq<Value>
    decreases |fs|
  {
    if fs == [] then []
    else
      var n := |fs| - 1;
      BecauseOf(fs[..n], cid) + Repeat(fs[n].cond, Occurrences(cid, fs[n].ids))
  }

  lemma {:induction false} PushKeys(d: map<string, Derivation>, cids: seq<string>, cond: Value, catalog: map<string, Value>, k: string)
    ensures k in PushAll(d, cids, cond, catalog) <==> k in d || k in cids
    decreases |cids|
  {
    if cids != [] {
      var n := |cids| - 1;
      PushKeys(d, cids[..n], cond, catalog, k);
      assert cids == cids[..n] + [cids[n]];
    }
  }

  lemma {:induction false} PushAllAt(d: map<string, Derivation>, cids: seq<string>, cond: Value, catalog: map<string, Value>, k: string)
    requires forall x | x in d :: d[x].control == CatalogGet(catalog, x)
    requires k in PushAll(d, cids, cond, catalog)
    ensures PushAll(d, cids, cond, catalog)[k] ==
      Derivation((if k in d then d[k].because else []) + Repeat(cond, Occurrences(k, cids)), CatalogGet(catalog, k))
    decreases |cids|
  {
    if cids != [] {
      var n := |cids| - 1;
      var front := PushAll(d, cids[..n], cond, catalog);
      var old_ := if k in d then d[k].because else [];
      var c := Occurrences(k, cids[..n]);
      OccurrencesSnoc(k, cids);
      PushKeys(d, cids[..n], cond, catalog, k);
      var e := if cids[n] in front then front[cids[n]] else Derivation([], CatalogGet(catalog, cids[n]));
      assert PushAll(d, cids, cond, catalog) == front[cids[n] := e.(because := e.because + [cond])];
      if k in front {
        PushAllAt(d, cids[..n], cond, catalog, k);
      } else {
        assert k !in cids[..n] && k !in d;
        assert c == 0;
      }
      if k == cids[n] {
        assert e == Derivation(old_ + Repeat(cond, c), CatalogGet(catalog, k));
        RepeatSnoc(cond, c);
        assert old_ + Repeat(cond, c) + [cond] == old_ + (Repeat(cond, c) + [cond]);
      } else {
        assert PushAll(d, cids, cond, catalog)[k] == front[k];
      }
    }
  }

  /** An id has an entry exactly when some rule fired it. */
  lemma {:induction false} AccumulateKeys(fs: seq<Firing>, catalog: map<string, Value>, cid: string)
    ensures cid in Accumulate(fs, catalog) <==> exists i | 0 <= i < |fs| :: cid in fs[i].ids
    decreases |fs|
  {
    if fs != [] {
      var n := |fs| - 1;
      AccumulateKeys(fs[..n], catalog, cid);
      PushKeys(Accumulate(fs[..n], catalog), fs[n].ids, fs[n].cond, catalog, cid);
      if cid in Accumulate(fs, catalog) {
        if cid in Accumulate(fs[..n], catalog) {
          var i :| 0 <= i < n && cid in fs[..n][i].ids;
          assert fs[i] == fs[..n][i];
        }
      } else {
        forall i | 0 <= i < |fs| ensures cid !in fs[i].ids {
          if i < n {
            assert fs[..n][i] == fs[i];
          }
        }
      }
    }
  }

  /** Each entry holds the catalog's entry for its id and exactly its
      provenance. */
  lemma {:induction false} AccumulateAt(fs: seq<Firing>, catalog: map<string, Value>, cid: string)
    ensures forall x | x in Accumulate(fs, catalog) :: Accumulate(fs, catalog)[x].control == CatalogGet(catalog, x)
    ensures cid in Accumulate(fs, catalog) ==>
      Accumulate(fs, catalog)[cid] == Derivation(BecauseOf(fs, cid), CatalogGet(catalog, cid))
    decreases |fs|
  {
    if fs != [] {
      var n := |fs| - 1;
      var front := Accumulate(fs[..n], catalog);
      AccumulateAt(fs[..n], catalog, cid);
      forall x | x in Accumulate(fs, catalog) ensures Accumulate(fs, catalog)[x].control == CatalogGet(catalog, x) {
        PushAllAt(front, fs[n].ids, fs[n].cond, catalog, x);
      }
      if cid in Accumulate(fs, catalog) {
        PushAllAt(front, fs[n].ids, fs[n].cond, catalog, cid);
        if cid !in front {
          AccumulateKeys(fs[..n], catalog, cid);
          BecauseEmpty(fs[..n], cid);
        }
      }
    }
  }

  /** An id no rule fired has no provenance. */
  lemma {:induction false} BecauseEmpty(fs: seq<Firing>, cid: string)
    requires forall i | 0 <= i < |fs| :: cid !in fs[i].ids
    ensures BecauseOf(fs, cid) == []
    decreases |fs|
  {
    if fs != [] {
      var n := |fs| - 1;
      forall i | 0 <= i < n ensures cid !in fs[..n][i].ids {
        assert fs[..n][i] == fs[i];
      }
      BecauseEmpty(fs[..n], cid);
      assert cid !in fs[n].ids;
      assert Occurrences(cid, fs[n].ids) == 0;
      assert Repeat(fs[n].cond, 0) == [];
    }
  }

  /** The rules loop for one matching rule. */
  method PushRule(derived: map<string, Derivation>, cids: seq<string>, cond: Value, catalog: map<string, Value>)
    returns (r: map<string, Derivation>)
    ensures r == PushAll(derived, cids, cond, catalog)
  {
    r := derived;
    var j := 0;
    while j < |cids|
      invariant 0 <= j <= |cids|
      invariant r == PushAll(derived, cids[..j], cond, catalog)
    {
      assert cids[..j + 1][..j] == cids[..j];
      var cid := cids[j];
      if cid !in r {
        r := r[cid := Derivation([], if cid in catalog then Some(catalog[cid]) else None)];
      }
      r := r[cid := r[cid].(because := r[cid].because + [cond])];
      j := j + 1;
    }
    assert cids[..j] == cids;
  }

  /** One rule's turn: its requirements are pushed when its condition
      matches the facts. */
  method ApplyRule(derived: map<string, Derivation>, facts: Value, rule: Value, catalog: map<string, Value>)
    returns (r: map<string, Derivation>)
    ensures r == PushAll(derived, FiringOf(facts, rule).ids, FiringOf(facts, rule).cond, catalog)
  {
    var cond := CondOf(rule);
    if TsMatches(facts, cond) {
      r := PushRule(derived, StringListAt(rule, "require"), cond, catalog);
    } else {
      r := derived;
    }
  }

  /** Accumulating one more firing. */
  lemma AccumulateSnoc(fs: seq<Firing>, i: nat, catalog: map<string, Value>)
    requires i < |fs|
    ensures Accumulate(fs[..i + 1], catalog) == PushAll(Accumulate(fs[..i], catalog), fs[i].ids, fs[i].cond, catalog)
  {
    assert fs[..i + 1][..i] == fs[..i] && fs[..i + 1][i] == fs[i];
  }

  /** `deriveControls(facts, paths)`. */
  method DeriveControls(facts: Value, rulesDoc: Value, catalogDoc: Value) returns (derived: map<string, Derivation>)
    ensures derived == DerivedOf(facts, ListAt(rulesDoc, "rules"), CatalogOf(ListAt(catalogDoc, "controls")))
  {
    var catalog := BuildCatalog(ListAt(catalogDoc, "controls"));
    var rules := ListAt(rulesDoc, "rules");
    ghost var fs := Firings(facts, rules);
    derived := map[];
    var i := 0;
    while i < |rules|
      invariant 0 <= i <= |rules|
      invariant derived == Accumulate(fs[..i], catalog)
    {
      AccumulateSnoc(fs, i, catalog);
      derived := ApplyRule(derived, facts, rules[i], catalog);
      i := i + 1;
    }
    assert fs[..i] == fs;
  }

  /** Rule `r` fires on the facts and lists `cid` among its requirements. */
  predicate Lists(facts: Value, r: Value, cid: string) {
    TsMatches(facts, CondOf(r)) && cid in StringListAt(r, "require")
  }

  /** The derived controls are listed once each, in ascending id order; a
      control is listed exactly when a matching rule requires it, with its
      catalog entry and one provenance entry per requiring rule. */
  lemma DerivedControlsListed(facts: Value, rules: seq<Value>, catalog: map<string, Value>, cid: string)
    ensures StrictlySorted(SortedSet(DerivedOf(facts, rules, catalog).Keys))
    ensures cid in SortedSet(DerivedOf(facts, rules, catalog).Keys) <==> exists i | 0 <= i < |rules| :: Lists(facts, rules[i], cid)
    ensures cid in DerivedOf(facts, rules, catalog) ==>
      DerivedOf(facts, rules, catalog)[cid] == Derivation(BecauseOf(Firings(facts, rules), cid), CatalogGet(catalog, cid))
  {
    var fs := Firings(facts, rules);
    AccumulateKeys(fs, catalog, cid);
    AccumulateAt(fs, catalog, cid);
    if exists i | 0 <= i < |rules| :: Lists(facts, rules[i], cid) {
      var i :| 0 <= i < |rules| && Lists(facts, rules[i], cid);
      assert cid in fs[i].ids;
    }
    if cid in DerivedOf(facts, rules, catalog) {
      var i :| 0 <= i < |fs| && cid in fs[i].ids;
      assert Lists(facts, rules[i], cid);
    }
  }

  // ---- requiredQuestionIds ---------------------------------------------------

  /** The string ids of the questions that are objects with an `id`. */
  function IdsIn(qs: seq<Value>): (ids: seq<string>)
    ensures |ids| <= |qs|
    decreases |qs|
  {
    if qs == [] then []
    else
      var n := |qs| - 1;
      IdsIn(qs[..n]) + (match Prop(qs[n], "id") case Some(S(id)) => [id] case _ => [])
  }

  /** An id is collected exactly when some question is an object with that
      string `id`. */
  lemma {:induction false} IdsInMembers(qs: seq<Value>, id: string)
    ensures id in IdsIn(qs) <==> exists i | 0 <= i < |qs| :: Prop(qs[i], "id") == Some(S(id))
    decreases |qs|
  {
    if qs != [] {
      var n := |qs| - 1;
      IdsInMembers(qs[..n], id);
      assert forall i | 0 <= i < n :: qs[..n][i] == qs[i];
    }
  }

  /** The question ids of a question document; an unreadable or ill-shaped
      document has none. */
  function QuestionIds(doc: Value): seq<string> {
    IdsIn(ListAt(doc, "questions"))
  }

  function IdsOf(docs: map<string, Value>): (m: map<string, seq<string>>)
    ensures m.Keys == docs.Keys
  {
    map d | d in docs :: QuestionIds(docs[d])
  }

  method CollectIds(out: seq<string>, ns: string, qs: seq<Value>) returns (r: seq<string>)
    ensures r == out + Qualified(ns, IdsIn(qs))
  {
    r := out;
    var j := 0;
    while j < |qs|
      invariant 0 <= j <= |qs|
      invariant r == out + Qualified(ns, IdsIn(qs[..j]))
    {
      assert qs[..j + 1][..j] == qs[..j];
      var id := Prop(qs[j], "id");
      if id.Some? && id.value.S? {
        assert Qualified(ns, IdsIn(qs[..j + 1])) == Qualified(ns, IdsIn(qs[..j])) + [ns + "." + id.value.s];
        r := r + [ns + "." + id.value.s];
      }
      j := j + 1;
    }
    assert qs[..j] == qs;
  }

  /** `requiredQuestionIds(paths, activated)`: the base questions, then each
      activated domain's questions (none when its file is missing). */
  method RequiredQuestionIds(baseDoc: Value, docs: map<string, Value>, activated: seq<string>) returns (out: seq<string>)
    ensures out == RequiredIds(QuestionIds(baseDoc), IdsOf(docs), activated)
  {
    ghost var baseIds := QuestionIds(baseDoc);
    ghost var idsOf := IdsOf(docs);
    out := CollectIds([], "base", ListAt(baseDoc, "questions"));
    assert [] + Qualified("base", baseIds) == Qualified("base", baseIds);
    RequiredIdsNone(baseIds, idsOf, activated);
    var i := 0;
    while i < |activated|
      invariant 0 <= i <= |activated|
      invariant out == RequiredIds(baseIds, idsOf, activated[..i])
    {
      RequiredIdsSnoc(baseIds, idsOf, activated, i);
      out := CollectDomain(out, docs, activated[i]);
      i := i + 1;
    }
    assert activated[..i] == activated;
  }

  /** One activated domain's questions, none when its file is missing. */
  method CollectDomain(out: seq<string>, docs: map<string, Value>, domain: string) returns (r: seq<string>)
    ensures r == out + (if domain in IdsOf(docs) then Qualified(domain, IdsOf(docs)[domain]) else [])
  {
    var qs := if domain in docs then ListAt(docs[domain], "questions") else [];
    r := CollectIds(out, domain, qs);
  }

  // ---- normalizeFactsForDump -------------------------------------------------

  /** A JavaScript object as a serialiser sees it: its own keys in order and
      their values. */
  datatype Record = Record(keys: seq<string>, vals: map<string, Value>)

  predicate WellFormed(r: Record) {
    Distinct(r.keys) && r.vals.Keys == set k | k in r.keys
  }

  /** The top-level sections in the order a dump lists them first. */
  const DumpOrder: seq<string> := ["scope", "model_version", "description", "base", "criticality",
    "security", "data", "ai", "integration", "operations", "cost", "exceptions"]

  function FilterIn(ks: seq<string>, s: set<string>): (r: seq<string>)
    ensures forall k :: k in r <==> k in ks && k in s
    decreases |ks|
  {
    if ks == [] then []
    else
      var n := |ks| - 1;
      assert forall k | k in ks[..n] :: k in ks;
      FilterIn(ks[..n], s) + (if ks[n] in s then [ks[n]] else [])
  }

  function FilterOut(ks: seq<string>, s: set<string>): (r: seq<string>)
    ensures forall k :: k in r <==> k in ks && k !in s
    decreases |ks|
  {
    if ks == [] then []
    else
      var n := |ks| - 1;
      assert forall k | k in ks[..n] :: k in ks;
      FilterOut(ks[..n], s) + (if ks[n] !in s then [ks[n]] else [])
  }

  /** Keeping only some keys keeps them distinct. */
  lemma {:induction false} FilterInDistinct(ks: seq<string>, s: set<string>)
    requires Distinct(ks)
    ensures Distinct(FilterIn(ks, s))
    decreases |ks|
  {
    if ks != [] {
      var n := |ks| - 1;
      assert Distinct(ks[..n]);
      FilterInDistinct(ks[..n], s);
      assert ks[n] !in ks[..n];
    }
  }

  lemma {:induction false} FilterOutDistinct(ks: seq<string>, s: set<string>)
    requires Distinct(ks)
    ensures Distinct(FilterOut(ks, s))
    decreases |ks|
  {
    if ks != [] {
      var n := |ks| - 1;
      assert Distinct(ks[..n]);
      FilterOutDistinct(ks[..n], s);
      assert ks[n] !in ks[..n];
    }
  }

  function OrderSet(): set<string> {
    set k | k in DumpOrder
  }

  /** JavaScript's `k in out` for an object literal: its own keys and the
      names it inherits. */
  predicate JsIn(k: string, out: Record) {
    k in out.vals || k in PrototypeNames
  }

  /** The key order of a dump: the listed sections present, in list order,
      then every other key in its own order, except the keys named like a
      member of `Object.prototype`, which `k in out` already finds on the
      fresh output object. */
  function DumpKeys(keys: seq<string>): seq<string> {
    FilterIn(DumpOrder, set k | k in keys) + FilterOut(keys, OrderSet() + PrototypeNames)
  }

  lemma DumpOrderDistinct()
    ensures Distinct(DumpOrder)
  {
  }

  /** `out` copies the values of `facts` for exactly the keys it lists. */
  ghost predicate CopiesOf(out: Record, facts: Record) {
    (forall k :: k in out.vals <==> k in out.keys) && forall k | k in out.vals :: k in facts.vals && out.vals[k] == facts.vals[k]
  }

  /** The first loop: the listed sections present in the facts, in list order. */
  method TakeListed(facts: Record, order: seq<string>) returns (out: Record)
    requires WellFormed(facts)
    ensures out.keys == FilterIn(order, set k | k in facts.keys)
    ensures CopiesOf(out, facts)
  {
    out := Record([], map[]);
    var i := 0;
    while i < |order|
      invariant 0 <= i <= |order|
      invariant out.keys == FilterIn(order[..i], set k | k in facts.keys)
      invariant CopiesOf(out, facts)
    {
      assert order[..i + 1][..i] == order[..i];
      var k := order[i];
      if k in facts.vals {
        out := Record(out.keys + [k], out.vals[k := facts.vals[k]]);
      }
      i := i + 1;
    }
    assert order[..i] == order;
  }

  /** Filtering one more key of a repeat-free list: the key is new to the
      filtered prefix and joins it unless listed. */
  lemma FilterOutStep(keys: seq<string>, listed: set<string>, j: nat)
    requires Distinct(keys) && j < |keys|
    ensures keys[j] !in FilterOut(keys[..j], listed)
    ensures FilterOut(keys[..j + 1], listed) == FilterOut(keys[..j], listed) + (if keys[j] !in listed then [keys[j]] else [])
  {
    assert keys[..j + 1][..j] == keys[..j];
    assert keys[j] !in keys[..j] by {
      forall p | 0 <= p < j ensures keys[..j][p] != keys[j] {
        assert keys[..j][p] == keys[p];
      }
    }
  }

  /** Which way key `j` goes: a key `k in out` misses is neither listed nor
      inherited and joins the filtered keys; a key it finds was listed or is
      inherited, and is filtered out. */
  lemma TakeKeyStep(facts: Record, head: Record, listed: set<string>, out: Record, j: nat)
    requires WellFormed(facts) && j < |facts.keys|
    requires forall k :: k in head.keys <==> k in facts.keys && k in listed
    requires out.keys == head.keys + FilterOut(facts.keys[..j], listed + PrototypeNames)
    requires forall k :: k in out.vals <==> k in out.keys
    ensures var k := facts.keys[j];
      k in facts.vals && (!JsIn(k, out) ==>
        k !in listed + PrototypeNames && out.keys + [k] == head.keys + FilterOut(facts.keys[..j + 1], listed + PrototypeNames))
    ensures JsIn(facts.keys[j], out) ==> out.keys == head.keys + FilterOut(facts.keys[..j + 1], listed + PrototypeNames)
  {
    var k := facts.keys[j];
    var skip := listed + PrototypeNames;
    var prev := FilterOut(facts.keys[..j], skip);
    FilterOutStep(facts.keys, skip, j);
    if k in out.vals {
      assert k in head.keys + prev;
      assert k in head.keys;
    } else if k !in PrototypeNames {
      SnocAfterConcat(head.keys, prev, k);
    }
  }

  /** Copying one more key of the facts keeps the output a copy. */
  lemma CopyOneMore(out: Record, facts: Record, k: string)
    requires CopiesOf(out, facts) && k in facts.vals && k !in out.vals
    ensures CopiesOf(Record(out.keys + [k], out.vals[k := facts.vals[k]]), facts)
  {
  }

  /** One step of the second loop: copy key `j` of the facts unless
      `k in out` holds. */
  method TakeIfAbsent(facts: Record, head: Record, listed: set<string>, out: Record, j: nat) returns (next: Record)
    requires WellFormed(facts) && j < |facts.keys|
    requires forall k :: k in head.keys <==> k in facts.keys && k in listed
    requires out.keys == head.keys + FilterOut(facts.keys[..j], listed + PrototypeNames)
    requires CopiesOf(out, facts)
    ensures next.keys == head.keys + FilterOut(facts.keys[..j + 1], listed + PrototypeNames)
    ensures CopiesOf(next, facts)
  {
    var k := facts.keys[j];
    TakeKeyStep(facts, head, listed, out, j);
    if !JsIn(k, out) {
      CopyOneMore(out, facts, k);
      next := Record(out.keys + [k], out.vals[k := facts.vals[k]]);
    } else {
      next := out;
    }
  }

  /** The second loop: every key of the facts neither listed nor inherited,
      in its own order. */
  method TakeRest(facts: Record, head: Record, listed: set<string>) returns (out: Record)
    requires WellFormed(facts) && CopiesOf(head, facts)
    requires forall k :: k in head.keys <==> k in facts.keys && k in listed
    ensures out.keys == head.keys + FilterOut(facts.keys, listed + PrototypeNames)
    ensures CopiesOf(out, facts)
  {
    out := head;
    var j := 0;
    while j < |facts.keys|
      invariant 0 <= j <= |facts.keys|
      invariant out.keys == head.keys + FilterOut(facts.keys[..j], listed + PrototypeNames)
      invariant CopiesOf(out, facts)
    {
      out := TakeIfAbsent(facts, head, listed, out, j);
      j := j + 1;
    }
    assert facts.keys[..j] == facts.keys;
  }

  /** `normalizeFactsForDump(facts)`. */
  method NormalizeFactsForDump(facts: Record) returns (out: Record)
    requires WellFormed(facts)
    ensures WellFormed(out)
    ensures out.keys == DumpKeys(facts.keys)
    ensures out.vals == facts.vals - PrototypeNames
  {
    var head := TakeListed(facts, DumpOrder);
    out := TakeRest(facts, head, OrderSet());
    DumpKeysPermutation(facts.keys);
    ReorderedCopy(out, facts);
  }

  /** No section of the dump order is an inherited name. */
  lemma OrderNotInherited()
    ensures OrderSet() !! PrototypeNames
  {
  }

  /** A copy that lists, once each, the keys of the facts other than the
      inherited names holds the facts' values for those keys. */
  lemma ReorderedCopy(out: Record, facts: Record)
    requires WellFormed(facts) && CopiesOf(out, facts) && Distinct(out.keys)
    requires forall k :: k in out.keys <==> k in facts.keys && k !in PrototypeNames
    ensures WellFormed(out) && out.vals == facts.vals - PrototypeNames
  {
    assert out.vals.Keys == (facts.vals - PrototypeNames).Keys;
  }

  /** A dump reorders the keys and loses none but the keys named like a
      member of `Object.prototype`. */
  lemma DumpKeysPermutation(keys: seq<string>)
    requires Distinct(keys)
    ensures Distinct(DumpKeys(keys))
    ensures forall k :: k in DumpKeys(keys) <==> k in keys && k !in PrototypeNames
  {
    DumpOrderDistinct();
    FilterInDistinct(DumpOrder, set k | k in keys);
    FilterOutDistinct(keys, OrderSet() + PrototypeNames);
    var a := FilterIn(DumpOrder, set k | k in keys);
    var b := FilterOut(keys, OrderSet() + PrototypeNames);
    OrderNotInherited();
    forall i, j | 0 <= i < |a| && 0 <= j < |b| ensures a[i] != b[j] {
      assert a[i] in a && b[j] in b;
    }
  }

  /** Keeping the keys of `order` that a set holds depends only on which
      keys of `order` it holds. */
  lemma {:induction false} FilterInSame(order: seq<string>, s1: set<string>, s2: set<string>)
    requires forall i | 0 <= i < |order| :: order[i] in s1 <==> order[i] in s2
    ensures FilterIn(order, s1) == FilterIn(order, s2)
    decreases |order|
  {
    if order != [] {
      var n := |order| - 1;
      var front := order[..n];
      assert forall i | 0 <= i < n :: front[i] in s1 <==> front[i] in s2 by {
        forall i | 0 <= i < n ensures front[i] == order[i] { }
      }
      FilterInSame(front, s1, s2);
      assert order[n] in s1 <==> order[n] in s2;
      FilterInLast(order, s1);
      FilterInLast(order, s2);
    }
  }

  lemma FilterInLast(order: seq<string>, s: set<string>)
    requires order != []
    ensures FilterIn(order, s) == FilterIn(order[..|order| - 1], s) + (if order[|order| - 1] in s then [order[|order| - 1]] else [])
  {
  }

  /** Reordering by any list of leading keys, dropping some other keys, is
      idempotent. */
  lemma ReorderTwice(order: seq<string>, hidden: set<string>, keys: seq<string>)
    ensures var o := (set k | k in order) + hidden;
      var d := FilterIn(order, set k | k in keys) + FilterOut(keys, o);
      FilterIn(order, set k | k in d) + FilterOut(d, o) == d
  {
    var o := (set k | k in order) + hidden;
    var a := FilterIn(order, set k | k in keys);
    var b := FilterOut(keys, o);
    var d := a + b;
    forall i | 0 <= i < |order| ensures order[i] in (set k | k in d) <==> order[i] in (set k | k in keys) {
      assert order[i] in d <==> order[i] in a || order[i] in b;
    }
    FilterInSame(order, set k | k in d, set k | k in keys);
    assert forall k | k in a :: k in o;
    FilterOutIn(a, o);
    FilterOutAppend(a, b, o);
    FilterOutTwice(keys, o);
    assert FilterOut(d, o) == [] + b;
    assert [] + b == b;
  }

  /** Dumping a dump changes nothing. */
  lemma DumpKeysIdempotent(keys: seq<string>)
    ensures DumpKeys(DumpKeys(keys)) == DumpKeys(keys)
  {
    ReorderTwice(DumpOrder, PrototypeNames, keys);
  }

  lemma {:induction false} FilterOutIn(a: seq<string>, s: set<string>)
    requires forall k | k in a :: k in s
    ensures FilterOut(a, s) == []
    decreases |a|
  {
    if a != [] {
      assert forall k | k in a[..|a| - 1] :: k in a;
      FilterOutIn(a[..|a| - 1], s);
    }
  }

  lemma {:induction false} FilterOutAppend(a: seq<string>, b: seq<string>, s: set<string>)
    ensures FilterOut(a + b, s) == FilterOut(a, s) + FilterOut(b, s)
    decreases |b|
  {
    if b == [] {
      assert a + b == a;
    } else {
      var n := |b| - 1;
      assert (a + b)[..|a + b| - 1] == a + b[..n];
      FilterOutAppend(a, b[..n], s);
    }
  }

  lemma {:induction false} FilterOutTwice(ks: seq<string>, s: set<string>)
    ensures FilterOut(FilterOut(ks, s), s) == FilterOut(ks, s)
    decreases |ks|
  {
    if ks != [] {
      var n := |ks| - 1;
      var f := FilterOut(ks[..n], s);
      FilterOutTwice(ks[..n], s);
      if ks[n] !in s {
        var g := f + [ks[n]];
        assert FilterOut(ks, s) == g;
        assert g[..|g| - 1] == f;
        assert FilterOut(g, s) == FilterOut(f, s) + [ks[n]];
      } else {
        assert FilterOut(ks, s) == f;
      }
    }
  }

  // ---- loadControlLinks ------------------------------------------------------

  /** A reference to an external requirement that a control satisfies. */
  datatype Reference = Reference(kind: string, target: string, description: Option<string>)

  /** Whether `x` passes `!x || typeof x !== "object"`: a non-null object. */
  predicate IsObject(x: Value) {
    x.M? || x.L?
  }

  /** The well-formed references of a link, in order: objects with a string
      `type` and `ref`, keeping a string `description`. */
  function RefsOf(refs: seq<Value>): (r: seq<Reference>)
    ensures |r| <= |refs|
    decreases |refs|
  {
    if refs == [] then []
    else
      var n := |refs| - 1;
      var x := refs[n];
      RefsOf(refs[..n]) +
        (if IsObject(x) && Prop(x, "type").Some? && Prop(x, "type").value.S?
            && Prop(x, "ref").Some? && Prop(x, "ref").value.S?
         then [Reference(Prop(x, "type").value.s, Prop(x, "ref").value.s,
                 if Prop(x, "description").Some? && Prop(x, "description").value.S?
                 then Some(Prop(x, "description").value.s) else None)]
         else [])
  }

  /** The links map: for each well-formed link with at least one good
      reference, its control id to those references; a later such link for
      the same control replaces an earlier one. */
  function LinksOf(links: seq<Value>): map<string, seq<Reference>>
    decreases |links|
  {
    if links == [] then map[]
    else
      var n := |links| - 1;
      var l := links[n];
      var front := LinksOf(links[..n]);
      if Linked(l) then front[LinkedId(l) := LinkedRefs(l)] else front
  }

  /** A link that enters the map: an object with a string `control_id` and a
      `references` array holding at least one good reference. */
  predicate Linked(l: Value) {
    IsObject(l) && Prop(l, "control_id").Some? && Prop(l, "control_id").value.S?
    && Prop(l, "references").Some? && Prop(l, "references").value.L?
    && RefsOf(Prop(l, "references").value.items) != []
  }

  function LinkedId(l: Value): string
    requires Linked(l)
  {
    Prop(l, "control_id").value.s
  }

  function LinkedRefs(l: Value): seq<Reference>
    requires Linked(l)
  {
    RefsOf(Prop(l, "references").value.items)
  }

  /** Link `l` enters the map for control `cid`. */
  predicate LinksTo(l: Value, cid: string) {
    Linked(l) && LinkedId(l) == cid
  }

  /** The references of one link. */
  method CollectRefs(refs: seq<Value>) returns (r: seq<Reference>)
    ensures r == RefsOf(refs)
  {
    r := [];
    var j := 0;
    while j < |refs|
      invariant 0 <= j <= |refs|
      invariant r == RefsOf(refs[..j])
    {
      assert refs[..j + 1][..j] == refs[..j];
      var x := refs[j];
      if IsObject(x) {
        var kind := Prop(x, "type");
        var target := Prop(x, "ref");
        if kind.Some? && kind.value.S? && target.Some? && target.value.S? {
          var desc := Prop(x, "description");
          r := r + [Reference(kind.value.s, target.value.s, if desc.Some? && desc.value.S? then Some(desc.value.s) else None)];
        }
      }
      j := j + 1;
    }
    assert refs[..j] == refs;
  }

  /** `loadControlLinks(paths)`; an absent document stands for a links file
      that is missing or does not parse, and gives the empty map. */
  method LoadControlLinks(doc: Option<Value>) returns (links: map<string, seq<Reference>>)
    ensures doc.None? ==> links == map[]
    ensures doc.Some? ==> links == LinksOf(ListAt(doc.value, "links"))
  {
    links := map[];
    if doc.None? {
      return;
    }
    var ls := ListAt(doc.value, "links");
    var i := 0;
    while i < |ls|
      invariant 0 <= i <= |ls|
      invariant links == LinksOf(ls[..i])
    {
      assert ls[..i + 1][..i] == ls[..i] && ls[..i + 1][i] == ls[i];
      var l := ls[i];
      if IsObject(l) {
        var cid := Prop(l, "control_id");
        var refs := Prop(l, "references");
        if cid.Some? && cid.value.S? && refs.Some? && refs.value.L? {
          var rs := CollectRefs(refs.value.items);
          if |rs| > 0 {
            links := links[cid.value.s := rs];
          }
        }
      }
      i := i + 1;
    }
    assert ls[..i] == ls;
  }

  /** No control is ever linked to an empty reference list. */
  lemma {:induction false} LinksNonEmpty(links: seq<Value>)
    ensures forall c | c in LinksOf(links) :: LinksOf(links)[c] != []
    decreases |links|
  {
    if links != [] {
      LinksNonEmpty(links[..|links| - 1]);
    }
  }

  /** A link that does not enter the map, among them every link whose
      references are all malformed, leaves the map as it was: it does not
      erase the references an earlier link gave the same control. */
  lemma EmptyLinkKeepsEarlier(links: seq<Value>, l: Value)
    requires !Linked(l)
    ensures LinksOf(links + [l]) == LinksOf(links)
  {
    assert (links + [l])[..|links|] == links;
  }

  /** A control is linked exactly when some link enters the map for it. */
  lemma {:induction false} LinksKeys(links: seq<Value>, cid: string)
    ensures cid in LinksOf(links) <==> exists i | 0 <= i < |links| :: LinksTo(links[i], cid)
    decreases |links|
  {
    if links != [] {
      var n := |links| - 1;
      var front := links[..n];
      LinksKeys(front, cid);
      assert forall i | 0 <= i < n :: front[i] == links[i];
      if cid in LinksOf(front) {
        var i :| 0 <= i < n && LinksTo(front[i], cid);
        assert LinksTo(links[i], cid);
      }
    }
  }

  /** Last wins: a control is linked to the references of the last link that
      enters the map for it. */
  lemma {:induction false} LinksLastWins(links: seq<Value>, cid: string, i: nat)
    requires i < |links| && LinksTo(links[i], cid)
    requires forall j | i < j < |links| :: !LinksTo(links[j], cid)
    ensures cid in LinksOf(links) && LinksOf(links)[cid] == LinkedRefs(links[i])
    decreases |links|
  {
    var n := |links| - 1;
    if i < n {
      var front := links[..n];
      assert forall j | i < j < n :: front[j] == links[j];
      LinksLastWins(front, cid, i);
      assert !LinksTo(links[n], cid);
    }
  }

  // ---- evaluateFacts ---------------------------------------------------------

  datatype RequiredQuestion = RequiredQuestion(id: string, answered: bool)

  /** One entry of `derived_controls`. */
  datatype ControlView = ControlView(
    id: string,
    title: Value,
    description: Option<Value>,
    scope: Value,
    enforcementIntent: Value,
    activationPhase: Value,
    evidenceType: Value,
    because: seq<Value>,
    references: Option<seq<Reference>>)

  datatype EvaluateResult = EvaluateResult(
    activatedDomains: seq<string>,
    requiredQuestions: seq<RequiredQuestion>,
    derivedControls: seq<ControlView>)

  /** The documents of one model directory; `links` is absent when its file
      cannot be read, and a domain without a readable question file has no
      entry in `domainQuestions`. */
  datatype Model = Model(
    triggers: Value,
    baseQuestions: Value,
    domainQuestions: map<string, Value>,
    rules: Value,
    catalog: Value,
    links: Option<Value>)

  /** `c?.name` on an optional catalog entry. */
  function Field(c: Option<Value>, name: string): Option<Value> {
    if c.Some? then Prop(c.value, name) else None
  }

  /** The view of a derived control: catalog fields with their defaults, and
      the references only when there are some. */
  function ViewOf(id: string, e: Derivation, links: map<string, seq<Reference>>): (v: ControlView)
    ensures v.id == id && v.because == e.because
    ensures e.control.None? ==>
      (v.title == S("(missing from catalog)") && v.scope == S("unknown")
       && v.enforcementIntent == S("unknown") && v.activationPhase == S("unknown") && v.evidenceType == L([])
       && v.description.None?)
    ensures v.references.Some? <==> id in links && links[id] != []
  {
    ControlView(id,
      Nullish(Field(e.control, "title"), S("(missing from catalog)")),
      Field(e.control, "description"),
      Nullish(Field(e.control, "scope"), S("unknown")),
      Nullish(Field(e.control, "enforcement_intent"), S("unknown")),
      Nullish(Field(e.control, "activation_phase"), S("unknown")),
      Nullish(Field(e.control, "evidence_type"), L([])),
      e.because,
      if id in links && |links[id]| > 0 then Some(links[id]) else None)
  }

  /** `req.map((id) => ({ id, answered: deepGet(facts, id) !== null }))`. */
  method Answer(req: seq<string>, facts: Value) returns (rqs: seq<RequiredQuestion>)
    ensures |rqs| == |req|
    ensures forall i | 0 <= i < |req| :: rqs[i] == RequiredQuestion(req[i], FactAt(Js, facts, req[i]) != Null)
  {
    rqs := [];
    var i := 0;
    while i < |req|
      invariant 0 <= i <= |req|
      invariant |rqs| == i
      invariant forall k | 0 <= k < i :: rqs[k] == RequiredQuestion(req[k], FactAt(Js, facts, req[k]) != Null)
    {
      var v := DeepGet(Js, facts, req[i]);
      rqs := rqs + [RequiredQuestion(req[i], v != Null)];
      i := i + 1;
    }
  }

  /** The ids left unanswered, in order. */
  function Unanswered(rqs: seq<RequiredQuestion>): seq<string>
    decreases |rqs|
  {
    if rqs == [] then []
    else
      var n := |rqs| - 1;
      Unanswered(rqs[..n]) + (if rqs[n].answered then [] else [rqs[n].id])
  }

  /** The unanswered questions of an evaluation are exactly what the diff
      route reports as missing for the same required list. */
  lemma {:induction false} UnansweredIsMissing(req: seq<string>, facts: Value, rqs: seq<RequiredQuestion>)
    requires |rqs| == |req|
    requires forall i | 0 <= i < |req| :: rqs[i] == RequiredQuestion(req[i], FactAt(Js, facts, req[i]) != Null)
    ensures Unanswered(rqs) == MissingOf(Js, req, facts)
    decreases |req|
  {
    if req != [] {
      var n := |req| - 1;
      UnansweredIsMissing(req[..n], facts, rqs[..n]);
    }
  }

  /** The views of the derived controls, in the order of `ids`. */
  method BuildViews(ids: seq<string>, derived: map<string, Derivation>, links: map<string, seq<Reference>>)
    returns (views: seq<ControlView>)
    requires forall i | 0 <= i < |ids| :: ids[i] in derived
    ensures |views| == |ids|
    ensures forall i | 0 <= i < |ids| :: views[i] == ViewOf(ids[i], derived[ids[i]], links)
  {
    views := [];
    var i := 0;
    while i < |ids|
      invariant 0 <= i <= |ids|
      invariant |views| == i
      invariant forall k | 0 <= k < i :: views[k] == ViewOf(ids[k], derived[ids[k]], links)
    {
      views := views + [ViewOf(ids[i], derived[ids[i]], links)];
      i := i + 1;
    }
  }

  /** `evaluateFacts(facts, paths)`: activated domains, required questions
      with their answered flag, and the derived controls sorted by id with
      their catalog fields, provenance and references. */
  method EvaluateFacts(facts: Value, m: Model) returns (r: EvaluateResult)
    ensures r.activatedDomains == SortedSet(ActivatedSet(facts, ListAt(m.triggers, "triggers")))
    ensures var req := RequiredIds(QuestionIds(m.baseQuestions), IdsOf(m.domainQuestions), r.activatedDomains);
      |r.requiredQuestions| == |req|
      && forall i | 0 <= i < |req| :: r.requiredQuestions[i] == RequiredQuestion(req[i], FactAt(Js, facts, req[i]) != Null)
    ensures var derived := DerivedOf(facts, ListAt(m.rules, "rules"), CatalogOf(ListAt(m.catalog, "controls")));
      var links := if m.links.Some? then LinksOf(ListAt(m.links.value, "links")) else map[];
      var ids := SortedSet(derived.Keys);
      |r.derivedControls| == |ids|
      && forall i | 0 <= i < |ids| :: r.derivedControls[i] == ViewOf(ids[i], derived[ids[i]], links)
  {
    var activated := DeriveActivatedDomains(facts, m.triggers);
    var req := RequiredQuestionIds(m.baseQuestions, m.domainQuestions, activated);
    var required := Answer(req, facts);
    var derived := DeriveControls(facts, m.rules, m.catalog);
    var links := LoadControlLinks(m.links);
    var views := BuildViews(SortedSet(derived.Keys), derived, links);
    r := EvaluateResult(activated, required, views);
  }
}
