/** The Python engine of tools/riskctl.py over already-loaded documents:
    shape validation with warnings, domain activation, control derivation,
    the required and missing questions, and the set arithmetic of `diff`. A
    document is the parsed YAML as a `Value`; where Python would raise on a
    malformed document (an attribute or type error), the operation `requires`
    the shape that does not raise. Such a requirement constrains only what
    Python reads: the `require` of a rule, say, only when its `when` matches.
    Ids are strings: an id list with other items is excluded too. */
module RiskCtl {
  import opened Values
  import opened Order
  import opened FactPaths
  import opened Conditions
  import opened Requirements

  const AllowedPhases: set<string> := {"design", "pre_go_live", "runtime", "post_go_live"}
  const AllowedEvidence: set<string> := {"config", "pipeline", "log", "document"}
  const AllowedQuestionTypes: set<string> := {"bool", "enum", "set"}

  // ---- Python operators on document values ------------------------------

  /** Lists and dicts are unhashable: a set or dict lookup of one raises. */
  predicate Hashable(x: Value) {
    !x.L? && !x.M?
  }

  /** `x in s` for a set of strings (a hashable `x`). */
  predicate InStrSet(x: Value, s: set<string>) {
    x.S? && x.s in s
  }

  predicate IsSubstring(x: string, s: string) {
    exists i | 0 <= i <= |s| :: x <= s[i..]
  }

  /** `x in c` does not raise: `c` is a list, a string searched for a
      string, or a dict searched for a hashable key. */
  predicate InDefined(x: Value, c: Value) {
    c.L? || (c.S? && x.S?) || (c.M? && Hashable(x))
  }

  /** Python's `x in c`. */
  predicate PyIn(x: Value, c: Value)
    requires InDefined(x, c)
  {
    match c
    case L(xs) => x in xs
    case S(s) => IsSubstring(x.s, s)
    case M(m) => x.S? && x.s in m
  }

  /** A warning the engine writes to standard error, with the data it names. */
  datatype Warning =
    | UnknownQuestionType(scope: string, qid: string, qtype: Value)
    | ExpectedBool(scope: string, qid: string)
    | ExpectedEnumString(scope: string, qid: string)
    | InvalidEnumValue(scope: string, qid: string, value: string)
    | ExpectedSetList(scope: string, qid: string)
    | InvalidSetItem(scope: string, qid: string, item: Value)
    | SectionNotObject(scope: string)
    | UnknownKey(scope: string, key: string)
    | ControlsNotList
    | ControlNotObject
    | UnknownPhase(cid: Value, phase: Value)
    | EvidenceNotList(cid: Value)
    | UnknownEvidence(cid: Value, evidence: Value)
    | RulesNotList
    | RuleNotObject(index: nat)
    | RequireNotList(index: nat)
    | MissingControl(index: nat, cid: Value, when: Value)

  // ---- validate_value ------------------------------------------------------

  /** `validate_value` does not raise: the type is hashable and every `in`
      test against a truthy `allowed` is defined. */
  predicate ValueCheckDefined(q: map<string, Value>, value: Value) {
    var qtype := PyGet(q, "type", Null);
    var allowed := PyGet(q, "allowed", L([]));
    Hashable(qtype)
    && (qtype == S("enum") && value.S? && allowed.PyTruthy() ==> InDefined(value, allowed))
    && (qtype == S("set") && value.L? && allowed.PyTruthy() ==>
          forall i | 0 <= i < |value.items| :: InDefined(value.items[i], allowed))
  }

  /** The items of a set answer that `allowed` does not contain, in order. */
  function InvalidItems(scope: string, qid: string, items: seq<Value>, allowed: Value): (w: seq<Warning>)
    requires forall i | 0 <= i < |items| :: InDefined(items[i], allowed)
    ensures |w| <= |items|
    ensures forall x | x in w ::
      (x.InvalidSetItem? && x.scope == scope && x.qid == qid && x.item in items && !PyIn(x.item, allowed))
    decreases |items|
  {
    if items == [] then []
    else
      var n := |items| - 1;
      var front := InvalidItems(scope, qid, items[..n], allowed);
      assert forall x | x in items[..n] :: x in items;
      front + (if PyIn(items[n], allowed) then [] else [InvalidSetItem(scope, qid, items[n])])
  }

  /** Every item `allowed` lacks draws a warning. */
  lemma {:induction false} InvalidItemsComplete(scope: string, qid: string, items: seq<Value>, allowed: Value, j: nat)
    requires forall i | 0 <= i < |items| :: InDefined(items[i], allowed)
    requires j < |items| && !PyIn(items[j], allowed)
    ensures InvalidSetItem(scope, qid, items[j]) in InvalidItems(scope, qid, items, allowed)
    decreases |items|
  {
    var n := |items| - 1;
    var front := InvalidItems(scope, qid, items[..n], allowed);
    assert InvalidItems(scope, qid, items, allowed)
      == front + (if PyIn(items[n], allowed) then [] else [InvalidSetItem(scope, qid, items[n])]);
    if j < n {
      assert forall i | 0 <= i < n :: items[..n][i] == items[i];
      InvalidItemsComplete(scope, qid, items[..n], allowed, j);
    }
  }

  /** The warnings of `validate_value(scope, qid, q, value)`. */
  function ValueWarnings(scope: string, qid: string, q: map<string, Value>, value: Value): seq<Warning>
    requires ValueCheckDefined(q, value)
  {
    var qtype := PyGet(q, "type", Null);
    var allowed := PyGet(q, "allowed", L([]));
    if !InStrSet(qtype, AllowedQuestionTypes) then [UnknownQuestionType(scope, qid, qtype)]
    else if qtype == S("bool") then (if value.B? then [] else [ExpectedBool(scope, qid)])
    else if qtype == S("enum") then
      if !value.S? then [ExpectedEnumString(scope, qid)]
      else if allowed.PyTruthy() && !PyIn(value, allowed) then [InvalidEnumValue(scope, qid, value.s)]
      else []
    else if !value.L? then [ExpectedSetList(scope, qid)]
    else if allowed.PyTruthy() then InvalidItems(scope, qid, value.items, allowed)
    else []
  }

  /** `validate_value` as it runs, the set case looping over the items. */
  method ValidateValue(scope: string, qid: string, q: map<string, Value>, value: Value) returns (w: seq<Warning>)
    requires ValueCheckDefined(q, value)
    ensures w == ValueWarnings(scope, qid, q, value)
  {
    var qtype := PyGet(q, "type", Null);
    if !InStrSet(qtype, AllowedQuestionTypes) {
      return [UnknownQuestionType(scope, qid, qtype)];
    }
    if qtype == S("bool") {
      w := if value.B? then [] else [ExpectedBool(scope, qid)];
      return;
    }
    var allowed := PyGet(q, "allowed", L([]));
    if qtype == S("enum") {
      if !value.S? {
        return [ExpectedEnumString(scope, qid)];
      }
      w := if allowed.PyTruthy() && !PyIn(value, allowed) then [InvalidEnumValue(scope, qid, value.s)] else [];
      return;
    }
    if !value.L? {
      return [ExpectedSetList(scope, qid)];
    }
    w := [];
    if allowed.PyTruthy() {
      w := CheckSetItems(scope, qid, value.items, allowed);
    }
  }

  /** The loop over a set answer's items: one warning per item outside
      `allowed`, in order. */
  method CheckSetItems(scope: string, qid: string, items: seq<Value>, allowed: Value) returns (w: seq<Warning>)
    requires forall i | 0 <= i < |items| :: InDefined(items[i], allowed)
    ensures w == InvalidItems(scope, qid, items, allowed)
  {
    w := [];
    var i := 0;
    while i < |items|
      invariant 0 <= i <= |items|
      invariant w == InvalidItems(scope, qid, items[..i], allowed)
    {
      assert items[..i + 1][..i] == items[..i];
      if !PyIn(items[i], allowed) {
        w := w + [InvalidSetItem(scope, qid, items[i])];
      }
      i := i + 1;
    }
    assert items[..i] == items;
  }

  /** A bool question warns exactly when the answer is not a bool. */
  lemma BoolAnswer(scope: string, qid: string, q: map<string, Value>, value: Value)
    requires ValueCheckDefined(q, value) && PyGet(q, "type", Null) == S("bool")
    ensures ValueWarnings(scope, qid, q, value) == [] <==> value.B?
    ensures !value.B? ==> ValueWarnings(scope, qid, q, value) == [ExpectedBool(scope, qid)]
  {
  }

  /** An enum answer outside a non-empty `allowed` warns once, naming the value. */
  lemma EnumOutsideAllowed(scope: string, qid: string, q: map<string, Value>, value: string)
    requires ValueCheckDefined(q, S(value)) && PyGet(q, "type", Null) == S("enum")
    requires PyGet(q, "allowed", L([])).L?
    requires PyGet(q, "allowed", L([])).items != [] && S(value) !in PyGet(q, "allowed", L([])).items
    ensures ValueWarnings(scope, qid, q, S(value)) == [InvalidEnumValue(scope, qid, value)]
  {
  }

  /** An empty or absent `allowed` means no membership check for an enum or
      a set question. */
  lemma EmptyAllowedAcceptsAll(scope: string, qid: string, q: map<string, Value>, value: Value)
    requires ValueCheckDefined(q, value) && !PyGet(q, "allowed", L([])).PyTruthy()
    ensures PyGet(q, "type", Null) == S("enum") && value.S? ==> ValueWarnings(scope, qid, q, value) == []
    ensures PyGet(q, "type", Null) == S("set") && value.L? ==> ValueWarnings(scope, qid, q, value) == []
  {
  }

  /** A set answer draws one warning per item outside a non-empty `allowed`:
      none when every item is allowed, one for each item when none is. */
  lemma {:induction false} SetItemsWarnings(scope: string, qid: string, items: seq<Value>, allowed: Value)
    requires forall i | 0 <= i < |items| :: InDefined(items[i], allowed)
    ensures (forall i | 0 <= i < |items| :: PyIn(items[i], allowed)) ==> InvalidItems(scope, qid, items, allowed) == []
    ensures (forall i | 0 <= i < |items| :: !PyIn(items[i], allowed)) ==>
      |InvalidItems(scope, qid, items, allowed)| == |items|
    decreases |items|
  {
    if items != [] {
      SetItemsWarnings(scope, qid, items[..|items| - 1], allowed);
    }
  }

  // ---- validate_scope_facts ------------------------------------------------

  /** Every non-null answer of a known question can be checked without raising. */
  predicate SectionCheckDefined(section: map<string, Value>, index: map<string, map<string, Value>>) {
    forall qid | qid in index && qid in section && section[qid] != Null :: ValueCheckDefined(index[qid], section[qid])
  }

  /** `x` is one of the warnings `validate_value` gives for some checked answer. */
  predicate FromValueCheck(scope: string, x: Warning, section: map<string, Value>, index: map<string, map<string, Value>>) {
    exists qid | qid in index && qid in section && section[qid] != Null && ValueCheckDefined(index[qid], section[qid]) ::
      x in ValueWarnings(scope, qid, index[qid], section[qid])
  }

  lemma NoUnknownKeyFromValues(scope: string, qid: string, q: map<string, Value>, value: Value)
    requires ValueCheckDefined(q, value)
    ensures forall x | x in ValueWarnings(scope, qid, q, value) :: !x.UnknownKey?
  {
  }

  /** `validate_scope_facts(scope, section, index)`: nothing for an absent
      section, one warning for a section that is not an object, otherwise a
      warning for each key no question declares and the `validate_value`
      warnings of each known question with a non-null answer. Python walks
      the dicts in insertion order; here the walk takes the keys in some
      order, so the contract says which warnings appear and that the
      unknown keys, then the questions, each come once. */
  method ValidateScopeFacts(scope: string, section: Value, index: map<string, map<string, Value>>)
    returns (w: seq<Warning>)
    requires section.M? ==> SectionCheckDefined(section.fields, index)
    ensures section.Null? ==> w == []
    ensures !section.Null? && !section.M? ==> w == [SectionNotObject(scope)]
    ensures section.M? ==> forall k :: UnknownKey(scope, k) in w <==> k in section.fields && k !in index
    ensures section.M? ==> forall x | x in w :: x.UnknownKey? || FromValueCheck(scope, x, section.fields, index)
    ensures section.M? ==> forall qid | qid in index && qid in section.fields && section.fields[qid] != Null ::
      forall x | x in ValueWarnings(scope, qid, index[qid], section.fields[qid]) :: x in w
    ensures section.M? ==> exists n, order | 0 <= n <= |w| ::
      Distinct(w[..n]) && (forall x | x in w[..n] :: x.UnknownKey?) &&
      Distinct(order) && (forall q :: q in order <==> q in index) && w[n..] == Checked(scope, order, section.fields, index)
  {
    if section.Null? {
      return [];
    }
    if !section.M? {
      return [SectionNotObject(scope)];
    }
    var u := UnknownKeys(scope, section.fields, index);
    w := CheckAnswers(scope, section.fields, index, u);
    ghost var order :| Distinct(order) && (forall q :: q in order <==> q in index) &&
      w == u + Checked(scope, order, section.fields, index);
    assert w[..|u|] == u && w[|u|..] == Checked(scope, order, section.fields, index);
  }

  /** The first loop of `validate_scope_facts`: one warning per key the index
      does not know. */
  method UnknownKeys(scope: string, sec: map<string, Value>, index: map<string, map<string, Value>>)
    returns (w: seq<Warning>)
    ensures forall k :: UnknownKey(scope, k) in w <==> k in sec && k !in index
    ensures forall x | x in w :: x.UnknownKey?
    ensures Distinct(w)
  {
    w := [];
    var keys := sec.Keys;
    while keys != {}
      invariant keys <= sec.Keys
      invariant forall k :: UnknownKey(scope, k) in w <==> k in sec && k !in keys && k !in index
      invariant forall x | x in w :: x.UnknownKey?
      invariant Distinct(w)
      decreases |keys|
    {
      var k :| k in keys;
      if k !in index {
        w := w + [UnknownKey(scope, k)];
      }
      keys := keys - {k};
    }
  }

  /** The value warnings of the questions `qids`, in that order, for those
      known to the index and answered with a non-null value. */
  function Checked(scope: string, qids: seq<string>, sec: map<string, Value>, index: map<string, map<string, Value>>): seq<Warning>
    requires SectionCheckDefined(sec, index)
    decreases |qids|
  {
    if qids == [] then []
    else
      var n := |qids| - 1;
      var qid := qids[n];
      Checked(scope, qids[..n], sec, index) +
        (if qid in index && qid in sec && sec[qid] != Null then ValueWarnings(scope, qid, index[qid], sec[qid]) else [])
  }

  /** The second loop of `validate_scope_facts`: the value warnings of every
      known question with a non-null answer, after the warnings so far, each
      question once, in the order the index is walked. */
  method CheckAnswers(scope: string, sec: map<string, Value>, index: map<string, map<string, Value>>, w0: seq<Warning>)
    returns (w: seq<Warning>)
    requires SectionCheckDefined(sec, index)
    requires forall k :: UnknownKey(scope, k) in w0 <==> k in sec && k !in index
    requires forall x | x in w0 :: x.UnknownKey?
    ensures forall k :: UnknownKey(scope, k) in w <==> k in sec && k !in index
    ensures forall x | x in w :: x.UnknownKey? || FromValueCheck(scope, x, sec, index)
    ensures forall qid | qid in index && qid in sec && sec[qid] != Null ::
      forall x | x in ValueWarnings(scope, qid, index[qid], sec[qid]) :: x in w
    ensures exists order ::
      Distinct(order) && (forall q :: q in order <==> q in index) && w == w0 + Checked(scope, order, sec, index)
  {
    w := w0;
    var qids := index.Keys;
    ghost var done: seq<string> := [];
    while qids != {}
      invariant qids <= index.Keys
      invariant Distinct(done) && forall q :: q in done <==> q in index && q !in qids
      invariant w == w0 + Checked(scope, done, sec, index)
      decreases |qids|
    {
      var qid :| qid in qids;
      CheckedSnoc(scope, done, qid, sec, index);
      ConcatAssoc(w0, Checked(scope, done, sec, index),
        if qid in sec && sec[qid] != Null then ValueWarnings(scope, qid, index[qid], sec[qid]) else []);
      w := CheckOne(scope, qid, sec, index, w);
      VisitOne(done, qid, qids, index.Keys);
      done := done + [qid];
      qids := qids - {qid};
    }
    AnswersAfter(scope, sec, index, w0, done, w);
  }

  /** What the warnings so far followed by the checked warnings of every
      question of the index hold. */
  lemma AnswersAfter(scope: string, sec: map<string, Value>, index: map<string, map<string, Value>>, w0: seq<Warning>,
                     order: seq<string>, w: seq<Warning>)
    requires SectionCheckDefined(sec, index)
    requires forall k :: UnknownKey(scope, k) in w0 <==> k in sec && k !in index
    requires forall x | x in w0 :: x.UnknownKey?
    requires Distinct(order) && (forall q :: q in order <==> q in index) && w == w0 + Checked(scope, order, sec, index)
    ensures forall k :: UnknownKey(scope, k) in w <==> k in sec && k !in index
    ensures forall x | x in w :: x.UnknownKey? || FromValueCheck(scope, x, sec, index)
    ensures forall qid | qid in index && qid in sec && sec[qid] != Null ::
      forall x | x in ValueWarnings(scope, qid, index[qid], sec[qid]) :: x in w
  {
    CheckedMembers(scope, order, sec, index);
  }

  /** One turn of the second loop: the value warnings of `qid`, when it is
      answered with a non-null value. */
  method CheckOne(scope: string, qid: string, sec: map<string, Value>, index: map<string, map<string, Value>>, w: seq<Warning>)
    returns (r: seq<Warning>)
    requires SectionCheckDefined(sec, index) && qid in index
    ensures r == w + if qid in sec && sec[qid] != Null then ValueWarnings(scope, qid, index[qid], sec[qid]) else []
  {
    r := w;
    if qid in sec && sec[qid] != Null {
      var vw := ValidateValue(scope, qid, index[qid], sec[qid]);
      r := r + vw;
    }
  }

  /** Visiting one more key of a set keeps the visited keys distinct and
      exactly those taken out. */
  lemma VisitOne<T>(done: seq<T>, x: T, rest: set<T>, all: set<T>)
    requires x in rest && Distinct(done) && forall q :: q in done <==> q in all && q !in rest
    requires rest <= all
    ensures Distinct(done + [x]) && forall q :: q in done + [x] <==> q in all && q !in rest - {x}
  {
  }

  lemma CheckedSnoc(scope: string, qids: seq<string>, qid: string, sec: map<string, Value>, index: map<string, map<string, Value>>)
    requires SectionCheckDefined(sec, index)
    ensures Checked(scope, qids + [qid], sec, index) == Checked(scope, qids, sec, index) +
      (if qid in index && qid in sec && sec[qid] != Null then ValueWarnings(scope, qid, index[qid], sec[qid]) else [])
  {
    assert (qids + [qid])[..|qids|] == qids;
  }

  /** The checked warnings of `qids` are value warnings, and hold every
      value warning of each answered question among them. */
  lemma {:induction false} CheckedMembers(scope: string, qids: seq<string>, sec: map<string, Value>, index: map<string, map<string, Value>>)
    requires SectionCheckDefined(sec, index)
    ensures forall x | x in Checked(scope, qids, sec, index) :: !x.UnknownKey? && FromValueCheck(scope, x, sec, index)
    ensures forall qid | qid in qids && qid in index && qid in sec && sec[qid] != Null ::
      forall x | x in ValueWarnings(scope, qid, index[qid], sec[qid]) :: x in Checked(scope, qids, sec, index)
    decreases |qids|
  {
    if qids != [] {
      var n := |qids| - 1;
      var qid := qids[n];
      CheckedMembers(scope, qids[..n], sec, index);
      assert forall q | q in qids :: q in qids[..n] || q == qid;
      if qid in index && qid in sec && sec[qid] != Null {
        NoUnknownKeyFromValues(scope, qid, index[qid], sec[qid]);
      }
    }
  }

  // ---- validate_controls_catalog -------------------------------------------

  /** `v = d.get(key, [])` followed by `if isinstance(v, str): v = [v]`: a
      lone string stands for a one-item list. The catalog validator reads
      `evidence_type` this way, the rule validator `require`. */
  function Wrapped(d: map<string, Value>, key: string): (e: Value)
    ensures PyGet(d, key, L([])).S? ==> e == L([PyGet(d, key, L([]))])
    ensures !PyGet(d, key, L([])).S? ==> e == PyGet(d, key, L([]))
  {
    var e := PyGet(d, key, L([]));
    if e.S? then L([e]) else e
  }

  /** The checks of one catalog entry do not raise: its phase and its
      evidence entries are hashable. */
  predicate ControlCheckDefined(c: Value) {
    c.M? ==>
      Hashable(PyGet(c.fields, "activation_phase", Null))
      && (Wrapped(c.fields, "evidence_type").L? ==> forall j | 0 <= j < |Wrapped(c.fields, "evidence_type").items| :: Hashable(Wrapped(c.fields, "evidence_type").items[j]))
  }

  predicate CatalogCheckDefined(doc: Value) {
    doc.M? &&
    var controls := PyGet(doc.fields, "controls", L([]));
    controls.L? ==> forall i | 0 <= i < |controls.items| :: ControlCheckDefined(controls.items[i])
  }

  /** The evidence entries outside the allowed evidence types, in order. */
  function EvidenceWarnings(cid: Value, es: seq<Value>): (w: seq<Warning>)
    ensures forall x | x in w :: (x.UnknownEvidence? && x.cid == cid && x.evidence in es && !InStrSet(x.evidence, AllowedEvidence))
    decreases |es|
  {
    if es == [] then []
    else
      var n := |es| - 1;
      assert forall x | x in es[..n] :: x in es;
      EvidenceWarnings(cid, es[..n]) + (if InStrSet(es[n], AllowedEvidence) then [] else [UnknownEvidence(cid, es[n])])
  }

  /** The warnings for one catalog entry. */
  function ControlWarnings(c: Value): seq<Warning> {
    if !c.M? then [ControlNotObject]
    else
      var cid := PyGet(c.fields, "id", S("(missing id)"));
      var phase := PyGet(c.fields, "activation_phase", Null);
      var ev := Wrapped(c.fields, "evidence_type");
      (if phase != Null && !InStrSet(phase, AllowedPhases) then [UnknownPhase(cid, phase)] else [])
      + (if !ev.L? then [EvidenceNotList(cid)] else EvidenceWarnings(cid, ev.items))
  }

  /** The warnings of `validate_controls_catalog(doc)`. */
  function CatalogWarnings(doc: Value): seq<Warning>
    requires CatalogCheckDefined(doc)
  {
    var controls := PyGet(doc.fields, "controls", L([]));
    if !controls.L? then [ControlsNotList]
    else Flatten(seq(|controls.items|, i requires 0 <= i < |controls.items| => ControlWarnings(controls.items[i])))
  }

  /** The body of the loop of `validate_controls_catalog`: the checks of one
      entry, with the inner loop over its evidence types. */
  method CheckControl(c: Value) returns (w: seq<Warning>)
    requires ControlCheckDefined(c)
    ensures w == ControlWarnings(c)
  {
    if !c.M? {
      return [ControlNotObject];
    }
    var cid := PyGet(c.fields, "id", S("(missing id)"));
    var phase := PyGet(c.fields, "activation_phase", Null);
    w := [];
    if phase != Null && !InStrSet(phase, AllowedPhases) {
      w := [UnknownPhase(cid, phase)];
    }
    var evidence := PyGet(c.fields, "evidence_type", L([]));
    if evidence.S? {
      evidence := L([evidence]);
    }
    if !evidence.L? {
      w := w + [EvidenceNotList(cid)];
      return;
    }
    w := CheckEvidence(w, cid, evidence.items);
  }

  /** The inner loop of `validate_controls_catalog` over one entry's
      evidence types. */
  method CheckEvidence(w0: seq<Warning>, cid: Value, es: seq<Value>) returns (w: seq<Warning>)
    requires forall j | 0 <= j < |es| :: Hashable(es[j])
    ensures w == w0 + EvidenceWarnings(cid, es)
  {
    w := w0;
    var j := 0;
    while j < |es|
      invariant 0 <= j <= |es|
      invariant w == w0 + EvidenceWarnings(cid, es[..j])
    {
      assert es[..j + 1][..j] == es[..j];
      if !InStrSet(es[j], AllowedEvidence) {
        w := w + [UnknownEvidence(cid, es[j])];
      }
      j := j + 1;
    }
    assert es[..j] == es;
  }

  /** `validate_controls_catalog(doc)` as it runs: the entries in order. */
  method ValidateControlsCatalog(doc: Value) returns (w: seq<Warning>)
    requires CatalogCheckDefined(doc)
    ensures w == CatalogWarnings(doc)
  {
    var controls := PyGet(doc.fields, "controls", L([]));
    if !controls.L? {
      return [ControlsNotList];
    }
    var items := controls.items;
    ghost var per := seq(|items|, i requires 0 <= i < |items| => ControlWarnings(items[i]));
    w := [];
    var i := 0;
    while i < |items|
      invariant 0 <= i <= |items|
      invariant w == Flatten(per[..i])
    {
      assert per[..i + 1] == per[..i] + [per[i]];
      FlattenSnoc(per[..i], per[i]);
      var cw := CheckControl(items[i]);
      w := w + cw;
      i := i + 1;
    }
    assert per[..i] == per;
  }

  /** An entry that is an object with an allowed phase (or none) and allowed
      evidence types draws no warning. */
  lemma {:induction false} CleanEvidence(cid: Value, es: seq<Value>)
    requires forall j | 0 <= j < |es| :: InStrSet(es[j], AllowedEvidence)
    ensures EvidenceWarnings(cid, es) == []
    decreases |es|
  {
    if es != [] {
      CleanEvidence(cid, es[..|es| - 1]);
    }
  }

  /** A catalog whose entries are all well-formed produces no warnings; each
      entry with an unknown phase produces a warning naming it. */
  lemma CatalogWarningsCases(doc: Value, i: nat)
    requires CatalogCheckDefined(doc) && PyGet(doc.fields, "controls", L([])).L?
    requires i < |PyGet(doc.fields, "controls", L([])).items|
    ensures var c := PyGet(doc.fields, "controls", L([])).items[i];
      c.M? && PyGet(c.fields, "activation_phase", Null) != Null
      && !InStrSet(PyGet(c.fields, "activation_phase", Null), AllowedPhases) ==>
        UnknownPhase(PyGet(c.fields, "id", S("(missing id)")), PyGet(c.fields, "activation_phase", Null)) in CatalogWarnings(doc)
    ensures var c := PyGet(doc.fields, "controls", L([])).items[i];
      !c.M? ==> ControlNotObject in CatalogWarnings(doc)
  {
    var items := PyGet(doc.fields, "controls", L([])).items;
    var per := seq(|items|, k requires 0 <= k < |items| => ControlWarnings(items[k]));
    var c := items[i];
    if c.M? && PyGet(c.fields, "activation_phase", Null) != Null
      && !InStrSet(PyGet(c.fields, "activation_phase", Null), AllowedPhases) {
      FlattenMembers(per, UnknownPhase(PyGet(c.fields, "id", S("(missing id)")), PyGet(c.fields, "activation_phase", Null)));
      assert per[i][0] == UnknownPhase(PyGet(c.fields, "id", S("(missing id)")), PyGet(c.fields, "activation_phase", Null));
    }
    if !c.M? {
      FlattenMembers(per, ControlNotObject);
      assert per[i] == [ControlNotObject];
    }
  }

  /** A catalog of objects with known phases (or none) and known evidence
      types draws no warning at all. */
  lemma CleanCatalog(doc: Value)
    requires CatalogCheckDefined(doc) && PyGet(doc.fields, "controls", L([])).L?
    requires forall c | c in PyGet(doc.fields, "controls", L([])).items ::
      c.M?
      && (PyGet(c.fields, "activation_phase", Null) == Null || InStrSet(PyGet(c.fields, "activation_phase", Null), AllowedPhases))
      && Wrapped(c.fields, "evidence_type").L?
      && forall j | 0 <= j < |Wrapped(c.fields, "evidence_type").items| :: InStrSet(Wrapped(c.fields, "evidence_type").items[j], AllowedEvidence)
    ensures CatalogWarnings(doc) == []
  {
    var items := PyGet(doc.fields, "controls", L([])).items;
    var per := seq(|items|, k requires 0 <= k < |items| => ControlWarnings(items[k]));
    forall k | 0 <= k < |items| ensures per[k] == [] {
      assert items[k] in items;
      CleanEvidence(PyGet(items[k].fields, "id", S("(missing id)")), Wrapped(items[k].fields, "evidence_type").items);
    }
    if CatalogWarnings(doc) != [] {
      var x := CatalogWarnings(doc)[0];
      FlattenMembers(per, x);
    }
  }

  // ---- The control catalog -------------------------------------------------

  /** The catalog `derive_controls` builds, keyed by the entries' `id`
      values: a string, but also null or a boolean. */
  type CatalogMap = map<Value, map<string, Value>>

  /** A catalog entry the dict comprehension can key: an object whose `id`
      is hashable. */
  predicate Keyable(c: Value) {
    c.M? && "id" in c.fields && Hashable(c.fields["id"])
  }

  /** `{c["id"]: c for c in catalog_doc.get("controls", [])}` does not raise:
      the entries are a list, or an empty string or dict, which yield
      nothing, and each entry is keyable. */
  predicate CatalogBuildable(doc: Value) {
    EntriesIterable(doc, "controls") && forall c | c in EntriesOf(doc, "controls") :: Keyable(c)
  }

  function IdOf(c: Value): Value
    requires Keyable(c)
  {
    c.fields["id"]
  }

  /** `{c["id"]: c for c in controls}`: later entries overwrite earlier ones. */
  function Catalog(items: seq<Value>): CatalogMap
    requires forall c | c in items :: Keyable(c)
    decreases |items|
  {
    if items == [] then map[]
    else
      var n := |items| - 1;
      assert forall c | c in items[..n] :: c in items;
      Catalog(items[..n])[IdOf(items[n]) := items[n].fields]
  }

  /** The catalog holds exactly the ids of the entries. */
  lemma {:induction false} CatalogHas(items: seq<Value>, id: Value)
    requires forall c | c in items :: Keyable(c)
    ensures id in Catalog(items) <==> exists j | 0 <= j < |items| :: IdOf(items[j]) == id
    decreases |items|
  {
    if items != [] {
      var n := |items| - 1;
      assert forall c | c in items[..n] :: c in items;
      CatalogHas(items[..n], id);
      assert forall j | 0 <= j < n :: items[..n][j] == items[j];
    }
  }

  /** For a listed id the catalog holds the last entry with that id. */
  lemma {:induction false} CatalogLast(items: seq<Value>, id: Value)
    requires forall c | c in items :: Keyable(c)
    requires id in Catalog(items)
    ensures exists j | 0 <= j < |items| ::
      IdOf(items[j]) == id && Catalog(items)[id] == items[j].fields
      && forall k | j < k < |items| :: IdOf(items[k]) != id
    decreases |items|
  {
    var n := |items| - 1;
    if IdOf(items[n]) == id {
      assert Catalog(items)[id] == items[n].fields;
    } else {
      var front := items[..n];
      assert forall c | c in front :: c in items;
      assert Catalog(items)[id] == Catalog(front)[id];
      CatalogLast(front, id);
      assert forall k | 0 <= k < n :: Keyable(front[k]) by {
        forall k | 0 <= k < n ensures Keyable(front[k]) { assert front[k] in items; }
      }
      var j :| 0 <= j < n && IdOf(front[j]) == id && Catalog(front)[id] == front[j].fields
        && forall k | j < k < n :: IdOf(front[k]) != id;
      forall k | j < k < |items| ensures IdOf(items[k]) != id {
        if k < n {
          assert front[k] == items[k];
        }
      }
      assert front[j] == items[j];
    }
  }

  /** The catalog holds exactly the ids of the entries; for a repeated id it
      holds the last entry with that id. */
  lemma CatalogLastWins(items: seq<Value>, id: Value)
    requires forall c | c in items :: Keyable(c)
    ensures id in Catalog(items) <==> exists j | 0 <= j < |items| :: IdOf(items[j]) == id
    ensures id in Catalog(items) ==> exists j | 0 <= j < |items| ::
      IdOf(items[j]) == id && Catalog(items)[id] == items[j].fields
      && forall k | j < k < |items| :: IdOf(items[k]) != id
  {
    CatalogHas(items, id);
    if id in Catalog(items) {
      CatalogLast(items, id);
    }
  }

  /** `controls: {}` is reported as not a list, and the catalog built from
      it is empty: derivation goes on without one. */
  lemma DictControlsEmptyCatalog(doc: Value)
    requires doc.M? && PyGet(doc.fields, "controls", L([])) == M(map[])
    ensures CatalogCheckDefined(doc) && CatalogBuildable(doc)
    ensures CatalogWarnings(doc) == [ControlsNotList]
    ensures Catalog(EntriesOf(doc, "controls")) == map[]
  {
  }

  // ---- validate_controls_rules ---------------------------------------------

  /** The rule checks do not raise: every required id is hashable. */
  predicate RuleCheckDefined(rule: Value) {
    rule.M? && Wrapped(rule.fields, "require").L? ==>
      forall j | 0 <= j < |Wrapped(rule.fields, "require").items| :: Hashable(Wrapped(rule.fields, "require").items[j])
  }

  predicate RulesCheckDefined(doc: Value) {
    doc.M? &&
    var rules := PyGet(doc.fields, "rules", L([]));
    rules.L? ==> forall i | 0 <= i < |rules.items| :: RuleCheckDefined(rules.items[i])
  }

  /** The required ids of rule number `index` that the catalog lacks, in order. */
  function MissingIds(index: nat, cids: seq<Value>, when: Value, catalog: CatalogMap): (w: seq<Warning>)
    ensures forall x | x in w ::
      (x.MissingControl? && x.index == index && x.when == when && x.cid in cids && x.cid !in catalog)
    decreases |cids|
  {
    if cids == [] then []
    else
      var n := |cids| - 1;
      assert forall x | x in cids[..n] :: x in cids;
      MissingIds(index, cids[..n], when, catalog)
        + (if cids[n] in catalog then [] else [MissingControl(index, cids[n], when)])
  }

  /** The warnings for rule number `index`. */
  function RuleWarnings(index: nat, rule: Value, catalog: CatalogMap): seq<Warning> {
    if !rule.M? then [RuleNotObject(index)]
    else
      var required := Wrapped(rule.fields, "require");
      if !required.L? then [RequireNotList(index)]
      else MissingIds(index, required.items, PyGet(rule.fields, "when", M(map[])), catalog)
  }

  /** The warnings of `validate_controls_rules(doc, catalog)`; rules are
      numbered from 1. */
  function RulesWarnings(doc: Value, catalog: CatalogMap): seq<Warning>
    requires RulesCheckDefined(doc)
  {
    var rules := PyGet(doc.fields, "rules", L([]));
    if !rules.L? then [RulesNotList]
    else Flatten(seq(|rules.items|, i requires 0 <= i < |rules.items| => RuleWarnings(i + 1, rules.items[i], catalog)))
  }

  /** The body of the loop of `validate_controls_rules`. */
  method CheckRule(index: nat, rule: Value, catalog: CatalogMap) returns (w: seq<Warning>)
    requires RuleCheckDefined(rule)
    ensures w == RuleWarnings(index, rule, catalog)
  {
    if !rule.M? {
      return [RuleNotObject(index)];
    }
    var required := PyGet(rule.fields, "require", L([]));
    if required.S? {
      required := L([required]);
    }
    if !required.L? {
      return [RequireNotList(index)];
    }
    var when := PyGet(rule.fields, "when", M(map[]));
    w := [];
    var j := 0;
    while j < |required.items|
      invariant 0 <= j <= |required.items|
      invariant w == MissingIds(index, required.items[..j], when, catalog)
    {
      assert required.items[..j + 1][..j] == required.items[..j];
      if required.items[j] !in catalog {
        w := w + [MissingControl(index, required.items[j], when)];
      }
      j := j + 1;
    }
    assert required.items[..j] == required.items;
  }

  /** `validate_controls_rules(doc, catalog)` as it runs. */
  method ValidateControlsRules(doc: Value, catalog: CatalogMap) returns (w: seq<Warning>)
    requires RulesCheckDefined(doc)
    ensures w == RulesWarnings(doc, catalog)
  {
    var rules := PyGet(doc.fields, "rules", L([]));
    if !rules.L? {
      return [RulesNotList];
    }
    var items := rules.items;
    ghost var per := seq(|items|, i requires 0 <= i < |items| => RuleWarnings(i + 1, items[i], catalog));
    w := [];
    var i := 0;
    while i < |items|
      invariant 0 <= i <= |items|
      invariant w == Flatten(per[..i])
    {
      assert per[..i + 1] == per[..i] + [per[i]];
      FlattenSnoc(per[..i], per[i]);
      assert RuleCheckDefined(items[i]);
      var rw := CheckRule(i + 1, items[i], catalog);
      assert rw == per[i];
      w := w + rw;
      i := i + 1;
    }
    assert per[..i] == per;
  }

  /** Every required id the catalog lacks is reported with its rule number
      and condition, and no id the catalog has is reported. */
  lemma {:induction false} MissingIdsExact(index: nat, cids: seq<Value>, when: Value, catalog: CatalogMap, j: nat)
    requires j < |cids| && cids[j] !in catalog
    ensures MissingControl(index, cids[j], when) in MissingIds(index, cids, when, catalog)
    decreases |cids|
  {
    var n := |cids| - 1;
    if j < n {
      MissingIdsExact(index, cids[..n], when, catalog, j);
    }
  }

  /** A null control id keys the catalog like any other: a rule requiring
      null finds it and draws no warning. */
  lemma NullControlIdFound(entry: Value, rule: Value)
    requires entry == M(map["id" := Null]) && rule == M(map["require" := L([Null])])
    ensures Null in Catalog([entry])
    ensures RuleWarnings(1, rule, Catalog([entry])) == []
  {
    assert Catalog([entry]) == Catalog([entry][..0])[Null := entry.fields];
    assert Wrapped(rule.fields, "require") == L([Null]);
    assert MissingIds(1, [Null], Null, Catalog([entry])) == MissingIds(1, [Null][..0], Null, Catalog([entry])) + [];
  }

  /** A rule requiring an id absent from the catalog is flagged. */
  lemma MissingControlFlagged(doc: Value, catalog: CatalogMap, i: nat, cid: string)
    requires RulesCheckDefined(doc) && PyGet(doc.fields, "rules", L([])).L?
    requires i < |PyGet(doc.fields, "rules", L([])).items|
    requires var rule := PyGet(doc.fields, "rules", L([])).items[i];
      rule.M? && Wrapped(rule.fields, "require").L? && S(cid) in Wrapped(rule.fields, "require").items
    requires S(cid) !in catalog
    ensures var rule := PyGet(doc.fields, "rules", L([])).items[i];
      MissingControl(i + 1, S(cid), PyGet(rule.fields, "when", M(map[]))) in RulesWarnings(doc, catalog)
  {
    var items := PyGet(doc.fields, "rules", L([])).items;
    var rule := items[i];
    var per := seq(|items|, k requires 0 <= k < |items| => RuleWarnings(k + 1, items[k], catalog));
    var cids := Wrapped(rule.fields, "require").items;
    var j :| 0 <= j < |cids| && cids[j] == S(cid);
    MissingIdsExact(i + 1, cids, PyGet(rule.fields, "when", M(map[])), catalog, j);
    assert per[i] == MissingIds(i + 1, cids, PyGet(rule.fields, "when", M(map[])), catalog);
    FlattenMembers(per, MissingControl(i + 1, S(cid), PyGet(rule.fields, "when", M(map[]))));
  }

  // ---- derive_activated_domains --------------------------------------------

  /** `for x in doc.get(key, [])` over the entries of a document does not
      raise: the document is a dict and the entries a list, or an empty
      string or dict, which yield nothing. (A non-empty string or dict would
      yield strings, and the entry's `.get` would raise.) */
  predicate EntriesIterable(doc: Value, key: string) {
    doc.M? && var v := PyGet(doc.fields, key, L([])); v.L? || v == S("") || v == M(map[])
  }

  /** The entries `for x in doc.get(key, [])` visits. */
  function EntriesOf(doc: Value, key: string): (es: seq<Value>)
    requires doc.M?
    ensures PyGet(doc.fields, key, L([])).L? ==> es == PyGet(doc.fields, key, L([])).items
    ensures !PyGet(doc.fields, key, L([])).L? ==> es == []
  {
    var v := PyGet(doc.fields, key, L([]));
    if v.L? then v.items else []
  }

  /** `t.get("when", {})` of a trigger or rule, when it is a dict. */
  function WhenOf(t: Value): map<string, Value> {
    if t.M? && PyGet(t.fields, "when", M(map[])).M? then PyGet(t.fields, "when", M(map[])).fields else map[]
  }

  /** The entry is a dict whose `when` is a dict or absent: `matches_condition`
      calls `cond.items()`, which raises on anything else. */
  predicate HasWhen(t: Value) {
    t.M? && PyGet(t.fields, "when", M(map[])).M?
  }

  /** A list of strings, or a string (iterated character by character). */
  predicate StringsOk(v: Value) {
    v.S? || (v.L? && forall i | 0 <= i < |v.items| :: v.items[i].S?)
  }

  /** What `for x in v` yields for such a value. */
  function Strings(v: Value): (r: seq<string>)
    requires StringsOk(v)
    ensures v.L? ==> |r| == |v.items| && forall i | 0 <= i < |r| :: S(r[i]) == v.items[i]
    ensures v.S? ==> |r| == |v.s| && forall i | 0 <= i < |r| :: r[i] == [v.s[i]]
  {
    if v.S? then seq(|v.s|, i requires 0 <= i < |v.s| => [v.s[i]])
    else seq(|v.items|, i requires 0 <= i < |v.items| => v.items[i].s)
  }

  /** A value whose iteration yields string ids: a string, a list of strings
      or a dict. */
  predicate IdsIterable(v: Value) {
    StringsOk(v) || v.M?
  }

  /** What `for x in v` yields for an `IdsIterable` value; a dict yields its
      keys. They are taken in sorted order: the engine only collects them in a
      set, or appends one condition to each of them, and each key occurs
      once, so their order does not show (see `DistinctIdsOrderFree`). */
  function Yield(v: Value): (r: seq<string>)
    ensures StringsOk(v) ==> r == Strings(v)
    ensures v.M? ==> Distinct(r) && forall x :: x in r <==> x in v.fields
  {
    if v.M? then
      StrictlySortedDistinct(SortedSet(v.fields.Keys));
      SortedSet(v.fields.Keys)
    else if StringsOk(v) then Strings(v)
    else []
  }

  /** The loop of `derive_activated_domains(facts, doc)` does not raise: every
      trigger is a dict with a dict `when`, and each trigger whose `when`
      matches the facts has an `activate` that yields string domains. A
      trigger that does not match may carry any `activate`: it is never read. */
  predicate TriggersDefined(facts: Value, doc: Value) {
    EntriesIterable(doc, "triggers") &&
    forall t | t in EntriesOf(doc, "triggers") ::
      HasWhen(t) && (PyMatches(facts, WhenOf(t)) ==> IdsIterable(PyGet(t.fields, "activate", L([]))))
  }

  /** The domains `for domain in t.get("activate", [])` yields. */
  function ActivateOf(t: Value): seq<string> {
    if t.M? then Yield(PyGet(t.fields, "activate", L([]))) else []
  }

  /** The domains the matching triggers list. */
  function ActivatedSet(facts: Value, ts: seq<Value>): set<string> {
    set t, d | t in ts && PyMatches(facts, WhenOf(t)) && d in ActivateOf(t) :: d
  }

  /** The domains one trigger contributes. */
  function Contribution(facts: Value, t: Value): set<string> {
    if PyMatches(facts, WhenOf(t)) then set d | d in ActivateOf(t) else {}
  }

  /** One more trigger adds its domains exactly when it matches. */
  lemma ActivatedSnoc(facts: Value, ts: seq<Value>, t: Value)
    ensures ActivatedSet(facts, ts + [t]) == ActivatedSet(facts, ts) + Contribution(facts, t)
  {
    forall d | d in ActivatedSet(facts, ts + [t]) ensures d in ActivatedSet(facts, ts) + Contribution(facts, t) {
      var u :| u in ts + [t] && PyMatches(facts, WhenOf(u)) && d in ActivateOf(u);
      if u != t {
        assert u in ts;
      }
    }
    forall d | d in ActivatedSet(facts, ts) + Contribution(facts, t) ensures d in ActivatedSet(facts, ts + [t]) {
      if d in ActivatedSet(facts, ts) {
        var u :| u in ts && PyMatches(facts, WhenOf(u)) && d in ActivateOf(u);
        assert u in ts + [t];
      } else {
        assert t in ts + [t];
      }
    }
  }

  lemma ActivatedStep(facts: Value, ts: seq<Value>, i: nat)
    requires i < |ts|
    ensures ActivatedSet(facts, ts[..i + 1]) == ActivatedSet(facts, ts[..i]) + Contribution(facts, ts[i])
  {
    assert ts[..i + 1] == ts[..i] + [ts[i]];
    ActivatedSnoc(facts, ts[..i], ts[i]);
  }

  /** `for domain in t.get("activate", []): activated.add(domain)`. */
  method AddDomains(activated: set<string>, act: seq<string>) returns (r: set<string>)
    ensures r == activated + set d | d in act
  {
    r := activated;
    var j := 0;
    while j < |act|
      invariant 0 <= j <= |act|
      invariant r == activated + set d | d in act[..j]
    {
      assert act[..j + 1] == act[..j] + [act[j]];
      r := r + {act[j]};
      j := j + 1;
    }
    assert act[..j] == act;
  }

  /** One trigger's turn: its domains are added when its `when` matches. */
  method AddTrigger(activated: set<string>, facts: Value, t: Value) returns (r: set<string>)
    ensures r == activated + Contribution(facts, t)
  {
    r := activated;
    if PyMatches(facts, WhenOf(t)) {
      r := AddDomains(activated, ActivateOf(t));
    }
  }


  /** `derive_activated_domains(facts, doc)`: collect the `activate` entries
      of every matching trigger in a set, then sort it. */
  method DeriveActivatedDomains(facts: Value, doc: Value) returns (domains: seq<string>)
    requires TriggersDefined(facts, doc)
    ensures domains == SortedSet(ActivatedSet(facts, EntriesOf(doc, "triggers")))
  {
    var ts := EntriesOf(doc, "triggers");
    var activated: set<string> := {};
    var i := 0;
    while i < |ts|
      invariant 0 <= i <= |ts|
      invariant activated == ActivatedSet(facts, ts[..i])
    {
      ActivatedStep(facts, ts, i);
      activated := AddTrigger(activated, facts, ts[i]);
      i := i + 1;
    }
    assert ts[..i] == ts;
    domains := SortedSet(activated);
  }

  /** The sorted list is free of repeats and holds a domain exactly when some
      matching trigger lists it. */
  lemma ActivatedMembers(facts: Value, ts: seq<Value>, d: string)
    ensures StrictlySorted(SortedSet(ActivatedSet(facts, ts)))
    ensures d in SortedSet(ActivatedSet(facts, ts)) <==>
      exists i | 0 <= i < |ts| :: PyMatches(facts, WhenOf(ts[i])) && d in ActivateOf(ts[i])
  {
    if d in ActivatedSet(facts, ts) {
      var t :| t in ts && PyMatches(facts, WhenOf(t)) && d in ActivateOf(t);
      var i :| 0 <= i < |ts| && ts[i] == t;
    }
    if exists i | 0 <= i < |ts| :: PyMatches(facts, WhenOf(ts[i])) && d in ActivateOf(ts[i]) {
      var i :| 0 <= i < |ts| && PyMatches(facts, WhenOf(ts[i])) && d in ActivateOf(ts[i]);
      assert ts[i] in ts;
    }
  }

  /** Triggers only add domains: more triggers never deactivate one. */
  lemma ActivatedMonotone(facts: Value, ts: seq<Value>, more: seq<Value>)
    ensures ActivatedSet(facts, ts) <= ActivatedSet(facts, ts + more)
  {
    forall d | d in ActivatedSet(facts, ts) ensures d in ActivatedSet(facts, ts + more) {
      var t :| t in ts && PyMatches(facts, WhenOf(t)) && d in ActivateOf(t);
      assert t in ts + more;
    }
  }

  // ---- derive_controls -----------------------------------------------------

  /** The derivation loop of `derive_controls(facts, doc)` does not raise:
      every rule is a dict with a dict `when`, and each rule whose `when`
      matches the facts has a `require` that yields string ids. A rule that
      does not match may carry any `require`: it is never read. */
  predicate DeriveDefined(facts: Value, doc: Value) {
    EntriesIterable(doc, "rules") &&
    forall r | r in EntriesOf(doc, "rules") ::
      HasWhen(r) && (PyMatches(facts, WhenOf(r)) ==> IdsIterable(PyGet(r.fields, "require", L([]))))
  }

  /** How the derivation reads a lone-string `require`: as written, Python
      iterates it character by character; the corrected reading takes it as
      the one id the rule validator checks. */
  datatype Reading = AsWritten | Corrected

  /** The control ids `for cid in rule.get("require", [])` yields, under a
      reading. */
  function RequireIds(rd: Reading, r: Value): seq<string> {
    if !r.M? then []
    else
      var v := PyGet(r.fields, "require", L([]));
      if rd == Corrected && v.S? then [v.s] else Yield(v)
  }

  /** The two readings differ on lone-string requirements only. */
  lemma ReadingsDifferOnStrings(r: Value)
    requires r.M? && !PyGet(r.fields, "require", L([])).S?
    ensures RequireIds(AsWritten, r) == RequireIds(Corrected, r)
  {
  }

  function Get<K, V>(m: map<K, seq<V>>, k: K): seq<V> {
    if k in m then m[k] else []
  }

  /** `derived.setdefault(cid, []).append(cond)` for each id in turn. */
  function AppendAll(d: map<string, seq<map<string, Value>>>, cids: seq<string>, cond: map<string, Value>):
    map<string, seq<map<string, Value>>>
    decreases |cids|
  {
    if cids == [] then d
    else
      var front := AppendAll(d, cids[..|cids| - 1], cond);
      var cid := cids[|cids| - 1];
      front[cid := Get(front, cid) + [cond]]
  }

  /** What one rule contributes: its condition, and the ids it requires when
      the condition matches the facts (none otherwise). */
  datatype Firing = Firing(cond: map<string, Value>, ids: seq<string>)

  function FiringOf(rd: Reading, facts: Value, r: Value): (f: Firing)
    ensures f.cond == WhenOf(r)
    ensures f.ids == if PyMatches(facts, WhenOf(r)) then RequireIds(rd, r) else []
  {
    Firing(WhenOf(r), if PyMatches(facts, WhenOf(r)) then RequireIds(rd, r) else [])
  }

  function Firings(rd: Reading, facts: Value, rules: seq<Value>): (fs: seq<Firing>)
    ensures |fs| == |rules| && forall i | 0 <= i < |rules| :: fs[i] == FiringOf(rd, facts, rules[i])
  {
    seq(|rules|, i requires 0 <= i < |rules| => FiringOf(rd, facts, rules[i]))
  }

  /** The map after the firings, in order: each appends its condition to
      the list of every id it carries. */
  function Gather(fs: seq<Firing>): map<string, seq<map<string, Value>>>
    decreases |fs|
  {
    if fs == [] then map[]
    else
      var n := |fs| - 1;
      AppendAll(Gather(fs[..n]), fs[n].ids, fs[n].cond)
  }

  /** The derived map after the rules, in order. */
  function Derived(rd: Reading, facts: Value, rules: seq<Value>): map<string, seq<map<string, Value>>> {
    Gather(Firings(rd, facts, rules))
  }

  /** The conditions the firings contribute to `cid`, once per occurrence. */
  function Provenance(fs: seq<Firing>, cid: string): seq<map<string, Value>>
    decreases |fs|
  {
    if fs == [] then []
    else
      var n := |fs| - 1;
      Provenance(fs[..n], cid) + Repeat(fs[n].cond, Occurrences(cid, fs[n].ids))
  }

  /** The provenance of `cid`: the condition of each matching rule, rule by
      rule, once per time the rule requires `cid`. */
  function Because(rd: Reading, facts: Value, rules: seq<Value>, cid: string): seq<map<string, Value>> {
    Provenance(Firings(rd, facts, rules), cid)
  }

  lemma {:induction false} AppendAllKeys(d: map<string, seq<map<string, Value>>>, cids: seq<string>, cond: map<string, Value>, k: string)
    ensures k in AppendAll(d, cids, cond) <==> k in d || k in cids
    decreases |cids|
  {
    if cids != [] {
      var n := |cids| - 1;
      AppendAllKeys(d, cids[..n], cond, k);
      assert cids == cids[..n] + [cids[n]];
    }
  }

  lemma AppendAllAt(d: map<string, seq<map<string, Value>>>, cids: seq<string>, cond: map<string, Value>, k: string)
    ensures k in AppendAll(d, cids, cond) <==> k in d || k in cids
    ensures Get(AppendAll(d, cids, cond), k) == Get(d, k) + Repeat(cond, Occurrences(k, cids))
  {
    AppendAllKeys(d, cids, cond, k);
    AppendAllGet(d, cids, cond, k);
  }

  lemma {:induction false} AppendAllGet(d: map<string, seq<map<string, Value>>>, cids: seq<string>, cond: map<string, Value>, k: string)
    ensures Get(AppendAll(d, cids, cond), k) == Get(d, k) + Repeat(cond, Occurrences(k, cids))
    decreases |cids|
  {
    if cids != [] {
      var n := |cids| - 1;
      var front := AppendAll(d, cids[..n], cond);
      assert AppendAll(d, cids, cond) == front[cids[n] := Get(front, cids[n]) + [cond]];
      AppendAllGet(d, cids[..n], cond, k);
      OccurrencesSnoc(k, cids);
      var c := Occurrences(k, cids[..n]);
      if k == cids[n] {
        assert Get(AppendAll(d, cids, cond), k) == Get(front, k) + [cond];
        RepeatSnoc(cond, c);
        assert Get(d, k) + Repeat(cond, c) + [cond] == Get(d, k) + (Repeat(cond, c) + [cond]);
      } else {
        assert Get(AppendAll(d, cids, cond), k) == Get(front, k);
      }
    }
  }

  /** Gathering one more firing. */
  lemma GatherSnoc(fs: seq<Firing>, i: nat)
    requires i < |fs|
    ensures Gather(fs[..i + 1]) == AppendAll(Gather(fs[..i]), fs[i].ids, fs[i].cond)
  {
    assert fs[..i + 1][..i] == fs[..i] && fs[..i + 1][i] == fs[i];
  }

  lemma {:induction false} GatherAt(fs: seq<Firing>, cid: string)
    ensures Get(Gather(fs), cid) == Provenance(fs, cid)
    decreases |fs|
  {
    if fs != [] {
      var n := |fs| - 1;
      GatherAt(fs[..n], cid);
      AppendAllAt(Gather(fs[..n]), fs[n].ids, fs[n].cond, cid);
    }
  }

  lemma {:induction false} GatherKeys(fs: seq<Firing>, cid: string)
    ensures cid in Gather(fs) <==> exists i | 0 <= i < |fs| :: cid in fs[i].ids
    decreases |fs|
  {
    if fs != [] {
      var n := |fs| - 1;
      GatherKeys(fs[..n], cid);
      AppendAllKeys(Gather(fs[..n]), fs[n].ids, fs[n].cond, cid);
      assert forall i | 0 <= i < n :: fs[..n][i] == fs[i];
    }
  }

  /** A repeat-free list holds each of its elements once. */
  lemma DistinctOccurrences(k: string, ids: seq<string>)
    requires Distinct(ids)
    ensures Occurrences(k, ids) == if k in ids then 1 else 0
  {
    DistinctCount(ids, k);
    assert k in ids <==> k in multiset(ids);
  }

  /** Appending one condition to each of the same distinct ids gives the same
      map whatever their order: the order in which a dict `require` yields
      its keys does not show in the derived map. */
  lemma DistinctIdsOrderFree(d: map<string, seq<map<string, Value>>>, ids1: seq<string>, ids2: seq<string>, cond: map<string, Value>)
    requires Distinct(ids1) && Distinct(ids2) && forall x :: x in ids1 <==> x in ids2
    ensures AppendAll(d, ids1, cond) == AppendAll(d, ids2, cond)
  {
    var a := AppendAll(d, ids1, cond);
    var b := AppendAll(d, ids2, cond);
    forall k ensures k in a <==> k in b {
      AppendAllKeys(d, ids1, cond, k);
      AppendAllKeys(d, ids2, cond, k);
    }
    forall k | k in a ensures a[k] == b[k] {
      AppendAllAt(d, ids1, cond, k);
      AppendAllAt(d, ids2, cond, k);
      DistinctOccurrences(k, ids1);
      DistinctOccurrences(k, ids2);
    }
    assert a.Keys == b.Keys;
  }

  /** The derived map holds, for each id, exactly its provenance. */
  lemma DerivedAt(rd: Reading, facts: Value, rules: seq<Value>, cid: string)
    ensures Get(Derived(rd, facts, rules), cid) == Because(rd, facts, rules, cid)
  {
    GatherAt(Firings(rd, facts, rules), cid);
  }

  /** Rule `r` matches the facts and lists `cid` among its requirements. */
  predicate RuleRequires(rd: Reading, facts: Value, r: Value, cid: string) {
    PyMatches(facts, WhenOf(r)) && cid in RequireIds(rd, r)
  }

  /** An id is derived exactly when some matching rule requires it. */
  lemma DerivedKeys(rd: Reading, facts: Value, rules: seq<Value>, cid: string)
    ensures cid in Derived(rd, facts, rules) <==> exists i | 0 <= i < |rules| :: RuleRequires(rd, facts, rules[i], cid)
  {
    var fs := Firings(rd, facts, rules);
    GatherKeys(fs, cid);
    if exists i | 0 <= i < |rules| :: RuleRequires(rd, facts, rules[i], cid) {
      var i :| 0 <= i < |rules| && RuleRequires(rd, facts, rules[i], cid);
      assert cid in fs[i].ids;
    }
    if cid in Derived(rd, facts, rules) {
      var i :| 0 <= i < |fs| && cid in fs[i].ids;
      assert RuleRequires(rd, facts, rules[i], cid);
    }
  }

  /** The two readings derive the same map when no matching rule has a
      lone-string `require`. */
  lemma ReadingsAgree(facts: Value, rules: seq<Value>)
    requires forall i | 0 <= i < |rules| :: rules[i].M? && PyMatches(facts, WhenOf(rules[i])) ==>
      !PyGet(rules[i].fields, "require", L([])).S?
    ensures Derived(AsWritten, facts, rules) == Derived(Corrected, facts, rules)
  {
    var fa := Firings(AsWritten, facts, rules);
    var fc := Firings(Corrected, facts, rules);
    forall i | 0 <= i < |rules| ensures fa[i] == fc[i] {
      if rules[i].M? && PyMatches(facts, WhenOf(rules[i])) {
        ReadingsDifferOnStrings(rules[i]);
      }
    }
    assert fa == fc;
  }

  /** Two matching rules that each require `cid` once give it two provenance
      entries, in rule order. */
  lemma TwoRulesTwoEntries(rd: Reading, facts: Value, r1: Value, r2: Value, cid: string)
    requires PyMatches(facts, WhenOf(r1)) && PyMatches(facts, WhenOf(r2))
    requires RequireIds(rd, r1) == [cid] && RequireIds(rd, r2) == [cid]
    ensures cid in Derived(rd, facts, [r1, r2])
    ensures Derived(rd, facts, [r1, r2])[cid] == [WhenOf(r1), WhenOf(r2)]
  {
    var fs := Firings(rd, facts, [r1, r2]);
    var f1, f2 := Firing(WhenOf(r1), [cid]), Firing(WhenOf(r2), [cid]);
    assert fs == [f1, f2];
    ProvenanceOfOnes(f1, f2, cid);
    DerivedAt(rd, facts, [r1, r2], cid);
    DerivedKeys(rd, facts, [r1, r2], cid);
    assert RuleRequires(rd, facts, [r1, r2][0], cid);
  }

  lemma ProvenanceOfOnes(f1: Firing, f2: Firing, cid: string)
    requires f1.ids == [cid] && f2.ids == [cid]
    ensures Provenance([f1, f2], cid) == [f1.cond, f2.cond]
  {
    assert Occurrences(cid, [cid]) == 1;
    assert [f1, f2][..1] == [f1] && [f1][..0] == [];
    assert Provenance([f1], cid) == [f1.cond];
  }

  /** The inner loop: append the rule's condition to the list of each id it
      requires, when the condition matches. */
  method AppendRequired(derived: map<string, seq<map<string, Value>>>, facts: Value, rule: Value)
    returns (r: map<string, seq<map<string, Value>>>)
    ensures r == AppendAll(derived, FiringOf(AsWritten, facts, rule).ids, WhenOf(rule))
  {
    r := derived;
    var cond := WhenOf(rule);
    if PyMatches(facts, cond) {
      r := AppendEach(derived, RequireIds(AsWritten, rule), cond);
    }
  }

  /** `derived.setdefault(cid, []).append(cond)` for each id, in order. */
  method AppendEach(derived: map<string, seq<map<string, Value>>>, cids: seq<string>, cond: map<string, Value>)
    returns (r: map<string, seq<map<string, Value>>>)
    ensures r == AppendAll(derived, cids, cond)
  {
    r := derived;
    var j := 0;
    while j < |cids|
      invariant 0 <= j <= |cids|
      invariant r == AppendAll(derived, cids[..j], cond)
    {
      assert cids[..j + 1][..j] == cids[..j];
      var cid := cids[j];
      var list := if cid in r then r[cid] else [];
      r := r[cid := list + [cond]];
      j := j + 1;
    }
    assert cids[..j] == cids;
  }

  /** The rule loop starts from the empty map and ends at the derived map. */
  lemma DeriveEnds(facts: Value, rules: seq<Value>)
    ensures Gather(Firings(AsWritten, facts, rules)[..0]) == map[]
    ensures Gather(Firings(AsWritten, facts, rules)[..|rules|]) == Derived(AsWritten, facts, rules)
  {
    var fs := Firings(AsWritten, facts, rules);
    assert fs[..0] == [];
    assert fs[..|rules|] == fs;
  }

  /** One turn of the rule loop, in the form the loop body computes it. */
  lemma DeriveStep(facts: Value, rules: seq<Value>, i: nat)
    requires i < |rules|
    ensures Gather(Firings(AsWritten, facts, rules)[..i + 1])
      == AppendAll(Gather(Firings(AsWritten, facts, rules)[..i]), FiringOf(AsWritten, facts, rules[i]).ids, WhenOf(rules[i]))
  {
    var fs := Firings(AsWritten, facts, rules);
    GatherSnoc(fs, i);
    assert fs[i] == FiringOf(AsWritten, facts, rules[i]);
  }

  /** `derived` after the derivation loop: for each matching rule, append its
      condition to the list of each id it requires, as Python iterates it. */
  method DeriveLoop(facts: Value, rules: seq<Value>) returns (derived: map<string, seq<map<string, Value>>>)
    ensures derived == Derived(AsWritten, facts, rules)
  {
    derived := map[];
    DeriveEnds(facts, rules);
    var i := 0;
    while i < |rules|
      invariant 0 <= i <= |rules|
      invariant derived == Gather(Firings(AsWritten, facts, rules)[..i])
    {
      DeriveStep(facts, rules, i);
      derived := AppendRequired(derived, facts, rules[i]);
      i := i + 1;
    }
  }

  /** `derive_controls(facts, rules_doc, catalog_doc)`: validate the catalog,
      build it last-wins, validate the rules against it, then derive. The
      warnings are returned; the derived map depends on the rules and the
      facts alone, so the validators never change it. */
  method DeriveControls(facts: Value, rulesDoc: Value, catalogDoc: Value)
    returns (derived: map<string, seq<map<string, Value>>>, catalog: CatalogMap, warnings: seq<Warning>)
    requires CatalogCheckDefined(catalogDoc) && CatalogBuildable(catalogDoc)
    requires RulesCheckDefined(rulesDoc) && DeriveDefined(facts, rulesDoc)
    ensures derived == Derived(AsWritten, facts, EntriesOf(rulesDoc, "rules"))
    ensures catalog == Catalog(EntriesOf(catalogDoc, "controls"))
    ensures warnings == CatalogWarnings(catalogDoc) + RulesWarnings(rulesDoc, catalog)
  {
    var cw := ValidateControlsCatalog(catalogDoc);
    catalog := Catalog(EntriesOf(catalogDoc, "controls"));
    var rw := ValidateControlsRules(rulesDoc, catalog);
    warnings := cw + rw;
    derived := DeriveLoop(facts, EntriesOf(rulesDoc, "rules"));
  }

  /** An id that a matching rule requires but the catalog lacks is still
      derived. The rule validator reports it when the rule's `require` is a
      list, and, under the corrected reading, when it is a lone string; a
      dict `require` is reported as not a list instead. */
  lemma UnknownReferenceTolerated(rd: Reading, facts: Value, rulesDoc: Value, catalog: CatalogMap, i: nat, cid: string)
    requires RulesCheckDefined(rulesDoc) && DeriveDefined(facts, rulesDoc)
    requires i < |EntriesOf(rulesDoc, "rules")| && PyMatches(facts, WhenOf(EntriesOf(rulesDoc, "rules")[i]))
    requires cid in RequireIds(rd, EntriesOf(rulesDoc, "rules")[i]) && S(cid) !in catalog
    ensures cid in Derived(rd, facts, EntriesOf(rulesDoc, "rules"))
    ensures var rule := EntriesOf(rulesDoc, "rules")[i];
      var v := PyGet(rule.fields, "require", L([]));
      v.L? || (rd == Corrected && v.S?) ==>
        MissingControl(i + 1, S(cid), M(WhenOf(rule))) in RulesWarnings(rulesDoc, catalog)
  {
    var rules := EntriesOf(rulesDoc, "rules");
    var rule := rules[i];
    assert rule in rules;
    DerivedKeys(rd, facts, rules, cid);
    assert RuleRequires(rd, facts, rules[i], cid);
    var v := PyGet(rule.fields, "require", L([]));
    if v.L? {
      var k :| 0 <= k < |RequireIds(rd, rule)| && RequireIds(rd, rule)[k] == cid;
      assert v.items[k] == S(cid);
      MissingControlFlagged(rulesDoc, catalog, i, cid);
    } else if rd == Corrected && v.S? {
      assert Wrapped(rule.fields, "require").items == [S(cid)];
      MissingControlFlagged(rulesDoc, catalog, i, cid);
    }
  }

  /** The lone-string `require` as written: `require: "ctl-1"` is validated
      as the one id "ctl-1" but derived as the five ids "c", "t", "l", "-", "1". */
  lemma RequireStringSplit()
    ensures var rule := M(map["require" := S("ctl-1")]);
      RequireIds(AsWritten, rule) == ["c", "t", "l", "-", "1"]
      && Wrapped(rule.fields, "require") == L([S("ctl-1")])
  {
  }

  /** Corrected: the ids the derivation uses are exactly the ids the rule
      validator checks. */
  lemma RequireIdsAgreeWithValidator(r: Value)
    requires r.M? && StringsOk(PyGet(r.fields, "require", L([])))
    ensures Wrapped(r.fields, "require").L?
    ensures |RequireIds(Corrected, r)| == |Wrapped(r.fields, "require").items|
    ensures forall i | 0 <= i < |RequireIds(Corrected, r)| :: S(RequireIds(Corrected, r)[i]) == Wrapped(r.fields, "require").items[i]
  {
  }
  // ---- required_question_ids / missing_required_questions ------------------

  /** An id `f"{ns}.{qid}"` formats the way the model spells it: a string,
      null or a boolean. */
  predicate Formattable(v: Value) {
    v.S? || v.Null? || v.B?
  }

  /** Python's `str` of such an id. */
  function PyStr(v: Value): string
    requires Formattable(v)
  {
    match v
    case S(s) => s
    case Null => "None"
    case B(b) => if b then "True" else "False"
  }

  /** A null id and the string id `None` give the same question path. */
  lemma NullIdSpelledNone()
    ensures PyStr(Null) == PyStr(S("None"))
    ensures forall v | Formattable(v) && !v.S? :: PyStr(v) in {"None", "True", "False"}
  {
  }

  /** `q["id"]` of each question reads without raising, and formats: the
      questions are a list, or an empty string or dict, which yield nothing;
      each is a dict with an `id` that is a string, null or a boolean. */
  predicate QuestionsDefined(doc: Value) {
    EntriesIterable(doc, "questions") &&
    forall q | q in EntriesOf(doc, "questions") :: q.M? && "id" in q.fields && Formattable(q.fields["id"])
  }

  /** `[q["id"] for q in doc.get("questions", [])]`, each as the f-string
      formats it. */
  function QuestionIds(doc: Value): (ids: seq<string>)
    requires QuestionsDefined(doc)
    ensures |ids| == |EntriesOf(doc, "questions")|
    ensures forall i | 0 <= i < |ids| :: ids[i] == PyStr(EntriesOf(doc, "questions")[i].fields["id"])
  {
    var qs := EntriesOf(doc, "questions");
    assert forall i | 0 <= i < |qs| :: qs[i] in qs;
    seq(|qs|, i requires 0 <= i < |qs| => PyStr(qs[i].fields["id"]))
  }

  /** The question documents on disk, by domain; a domain whose file does
      not exist has no entry. */
  predicate DomainDocsDefined(docs: map<string, Value>) {
    forall d | d in docs :: QuestionsDefined(docs[d])
  }

  function IdsOf(docs: map<string, Value>): (m: map<string, seq<string>>)
    requires DomainDocsDefined(docs)
    ensures m.Keys == docs.Keys
  {
    map d | d in docs :: QuestionIds(docs[d])
  }

  /** `for q in list_domain_questions(questions_dir, domain): out.append(...)`. */
  method AppendDomainQuestions(out: seq<string>, domain: string, docs: map<string, Value>) returns (r: seq<string>)
    requires DomainDocsDefined(docs)
    ensures r == out + (if domain in IdsOf(docs) then Qualified(domain, IdsOf(docs)[domain]) else [])
  {
    r := out;
    if domain !in docs {
      return;
    }
    var ids := QuestionIds(docs[domain]);
    var j := 0;
    while j < |ids|
      invariant 0 <= j <= |ids|
      invariant r == out + Qualified(domain, ids[..j])
    {
      assert Qualified(domain, ids[..j + 1]) == Qualified(domain, ids[..j]) + [domain + "." + ids[j]];
      r := r + [domain + "." + ids[j]];
      j := j + 1;
    }
    assert ids[..j] == ids;
  }

  /** `required_question_ids(base_file, questions_dir, activated)`: the base
      questions, then each activated domain's questions in turn. */
  method RequiredQuestionIds(baseDoc: Value, docs: map<string, Value>, activated: seq<string>) returns (out: seq<string>)
    requires QuestionsDefined(baseDoc) && DomainDocsDefined(docs)
    ensures out == RequiredIds(QuestionIds(baseDoc), IdsOf(docs), activated)
  {
    var baseIds := QuestionIds(baseDoc);
    ghost var idsOf := IdsOf(docs);
    out := Qualified("base", baseIds);
    RequiredIdsNone(baseIds, idsOf, activated);
    var i := 0;
    while i < |activated|
      invariant 0 <= i <= |activated|
      invariant out == RequiredIds(baseIds, idsOf, activated[..i])
    {
      RequiredIdsSnoc(baseIds, idsOf, activated, i);
      out := AppendDomainQuestions(out, activated[i], docs);
      i := i + 1;
    }
    assert activated[..i] == activated;
  }

  /** `missing_required_questions(required, facts)`: the required paths whose
      `deep_get` is None, in order. */
  method MissingRequiredQuestions(required: seq<string>, facts: Value) returns (missing: seq<string>)
    ensures missing == MissingOf(Py, required, facts)
  {
    missing := [];
    var i := 0;
    while i < |required|
      invariant 0 <= i <= |required|
      invariant missing == MissingOf(Py, required[..i], facts)
    {
      assert required[..i + 1][..i] == required[..i] && required[..i + 1][i] == required[i];
      var val := DeepGet(Py, facts, required[i]);
      if val == Null {
        missing := missing + [required[i]];
      }
      i := i + 1;
    }
    assert required[..i] == required;
  }

  // ---- diff_models ---------------------------------------------------------

  /** The documents of one model directory. */
  datatype ModelDocs = ModelDocs(
    triggers: Value,
    baseQuestions: Value,
    domainQuestions: map<string, Value>,
    rules: Value,
    catalog: Value)

  /** Evaluating the model on the facts does not raise. */
  predicate ModelDefined(facts: Value, m: ModelDocs) {
    TriggersDefined(facts, m.triggers) && QuestionsDefined(m.baseQuestions) && DomainDocsDefined(m.domainQuestions)
    && RulesCheckDefined(m.rules) && DeriveDefined(facts, m.rules)
    && CatalogCheckDefined(m.catalog) && CatalogBuildable(m.catalog)
  }

  /** What `diff_models` reports. */
  datatype DiffReport = DiffReport(
    addedControls: seq<string>,
    removedControls: seq<string>,
    newlyMissing: seq<string>,
    noLongerMissing: seq<string>,
    oldDomains: seq<string>,
    newDomains: seq<string>)

  /** The report for two outcomes: each list is one set difference, sorted. */
  function Diff(oldControls: set<string>, newControls: set<string>, oldMissing: set<string>, newMissing: set<string>,
                oldDomains: seq<string>, newDomains: seq<string>): (r: DiffReport)
    ensures StrictlySorted(r.addedControls) && StrictlySorted(r.removedControls)
    ensures StrictlySorted(r.newlyMissing) && StrictlySorted(r.noLongerMissing)
    ensures forall c :: c in r.addedControls <==> c in newControls && c !in oldControls
    ensures forall c :: c in r.removedControls <==> c in oldControls && c !in newControls
    ensures forall q :: q in r.newlyMissing <==> q in newMissing && q !in oldMissing
    ensures forall q :: q in r.noLongerMissing <==> q in oldMissing && q !in newMissing
    ensures r.oldDomains == oldDomains && r.newDomains == newDomains
  {
    DiffReport(SortedSet(newControls - oldControls), SortedSet(oldControls - newControls),
      SortedSet(newMissing - oldMissing), SortedSet(oldMissing - newMissing), oldDomains, newDomains)
  }

  /** The activated domains of a model. */
  function DomainsOf(facts: Value, m: ModelDocs): seq<string>
    requires ModelDefined(facts, m)
  {
    SortedSet(ActivatedSet(facts, EntriesOf(m.triggers, "triggers")))
  }

  /** The set of required questions a model leaves unanswered. */
  function MissingSetOf(facts: Value, m: ModelDocs): set<string>
    requires ModelDefined(facts, m)
  {
    var required := RequiredIds(QuestionIds(m.baseQuestions), IdsOf(m.domainQuestions), DomainsOf(facts, m));
    set q | q in MissingOf(Py, required, facts)
  }

  /** The control ids a model derives. */
  function ControlsOf(facts: Value, m: ModelDocs): set<string>
    requires ModelDefined(facts, m)
  {
    Derived(AsWritten, facts, EntriesOf(m.rules, "rules")).Keys
  }

  /** `diff_models(facts, older, newer)`: evaluate both models on the same facts
      and compare; a facts document that is not a mapping is an error. */
  method DiffModels(facts: Value, older: ModelDocs, newer: ModelDocs) returns (r: Option<DiffReport>)
    requires facts.M? ==> ModelDefined(facts, older) && ModelDefined(facts, newer)
    ensures !facts.M? ==> r == None
    ensures facts.M? ==> r == Some(Diff(ControlsOf(facts, older), ControlsOf(facts, newer),
      MissingSetOf(facts, older), MissingSetOf(facts, newer), DomainsOf(facts, older), DomainsOf(facts, newer)))
  {
    if !facts.M? {
      return None;
    }
    var oldDomains := DeriveActivatedDomains(facts, older.triggers);
    var newDomains := DeriveActivatedDomains(facts, newer.triggers);
    var oldRequired := RequiredQuestionIds(older.baseQuestions, older.domainQuestions, oldDomains);
    var newRequired := RequiredQuestionIds(newer.baseQuestions, newer.domainQuestions, newDomains);
    var oldMissingList := MissingRequiredQuestions(oldRequired, facts);
    var newMissingList := MissingRequiredQuestions(newRequired, facts);
    var oldMissing := set q | q in oldMissingList;
    var newMissing := set q | q in newMissingList;
    var oldDerived, _, _ := DeriveControls(facts, older.rules, older.catalog);
    var newDerived, _, _ := DeriveControls(facts, newer.rules, newer.catalog);
    var oldControls := oldDerived.Keys;
    var newControls := newDerived.Keys;
    r := Some(DiffReport(SortedSet(newControls - oldControls), SortedSet(oldControls - newControls),
      SortedSet(newMissing - oldMissing), SortedSet(oldMissing - newMissing), oldDomains, newDomains));
  }

  /** Swapping the two models swaps additions with removals and newly missing
      with no longer missing questions. */
  lemma DiffSwap(oc: set<string>, nc: set<string>, om: set<string>, nm: set<string>, od: seq<string>, nd: seq<string>)
    ensures var r := Diff(oc, nc, om, nm, od, nd);
      var s := Diff(nc, oc, nm, om, nd, od);
      s.addedControls == r.removedControls && s.removedControls == r.addedControls
      && s.newlyMissing == r.noLongerMissing && s.noLongerMissing == r.newlyMissing
  {
  }

  /** A model compared with itself reports no change. */
  lemma DiffSelf(facts: Value, m: ModelDocs)
    requires ModelDefined(facts, m)
    ensures var r := Diff(ControlsOf(facts, m), ControlsOf(facts, m),
      MissingSetOf(facts, m), MissingSetOf(facts, m), DomainsOf(facts, m), DomainsOf(facts, m));
      r.addedControls == [] && r.removedControls == [] && r.newlyMissing == [] && r.noLongerMissing == []
      && r.oldDomains == r.newDomains
  {
    var c := ControlsOf(facts, m);
    var q := MissingSetOf(facts, m);
    assert c - c == {} && q - q == {};
  }

  /** A control that only the new model's matching rules require is reported
      as added, and never as removed. */
  lemma NewRuleAddsControl(facts: Value, older: ModelDocs, newer: ModelDocs, i: nat, cid: string)
    requires ModelDefined(facts, older) && ModelDefined(facts, newer)
    requires i < |EntriesOf(newer.rules, "rules")| && PyMatches(facts, WhenOf(EntriesOf(newer.rules, "rules")[i]))
    requires cid in RequireIds(AsWritten, EntriesOf(newer.rules, "rules")[i])
    requires forall j | 0 <= j < |EntriesOf(older.rules, "rules")| :: cid !in RequireIds(AsWritten, EntriesOf(older.rules, "rules")[j])
    ensures var r := Diff(ControlsOf(facts, older), ControlsOf(facts, newer),
      MissingSetOf(facts, older), MissingSetOf(facts, newer), DomainsOf(facts, older), DomainsOf(facts, newer));
      cid in r.addedControls && cid !in r.removedControls
  {
    DerivedKeys(AsWritten, facts, EntriesOf(newer.rules, "rules"), cid);
    DerivedKeys(AsWritten, facts, EntriesOf(older.rules, "rules"), cid);
  }
}
