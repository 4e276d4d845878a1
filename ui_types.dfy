/** The typed views the editor pages build from raw question and trigger
    documents (web/src/lib/uiTypes.ts). Items of the wrong shape are
    skipped, never reported. */
module UiTypes {
  import opened Values
  import opened Text
  import opened FactPaths
  import opened Conditions
  import opened Evaluator

  datatype QuestionType = Bool | Enum | Set

  datatype Question = Question(
    id: string,
    text: string,
    description: Option<string>,
    qtype: QuestionType,
    allowed: Option<seq<string>>)

  datatype TriggerRule = TriggerRule(when: Value, activate: seq<string>)

  /** `type === 'bool' | 'enum' | 'set'`. */
  function TypeOf(v: Option<Value>): (t: Option<QuestionType>)
    ensures t == Some(Bool) <==> v == Some(S("bool"))
    ensures t == Some(Enum) <==> v == Some(S("enum"))
    ensures t == Some(Set) <==> v == Some(S("set"))
  {
    if v == Some(S("bool")) then Some(Bool)
    else if v == Some(S("enum")) then Some(Enum)
    else if v == Some(S("set")) then Some(Set)
    else None
  }

  /** The optional description: kept, trimmed, only when it is a string that
      is not blank. */
  function DescriptionOf(v: Option<Value>): Option<string> {
    if v.Some? && v.value.S? && Trim(v.value.s) != "" then Some(Trim(v.value.s)) else None
  }

  /** `allowed` when it is an array, narrowed to its strings. */
  function AllowedOf(v: Option<Value>): Option<seq<string>> {
    if v.Some? && v.value.L? then Some(StringsIn(v.value.items)) else None
  }

  /** One item of `parseQuestions`: an object with string `id` and `text` and
      a known `type`, or nothing. */
  function QuestionOf(item: Value): Option<Question> {
    match (Prop(item, "id"), Prop(item, "text"), TypeOf(Prop(item, "type")))
    case (Some(S(id)), Some(S(text)), Some(t)) =>
      Some(Question(id, text, DescriptionOf(Prop(item, "description")), t, AllowedOf(Prop(item, "allowed"))))
    case _ => None
  }

  /** The items a parser accepts, parsed, in document order: the loop body
      `continue`s past the others. */
  function Kept<T>(raw: seq<Value>, parse: Value -> Option<T>): seq<T>
    decreases |raw|
  {
    if raw == [] then []
    else
      var n := |raw| - 1;
      Kept(raw[..n], parse) + (match parse(raw[n]) case Some(x) => [x] case None => [])
  }

  /** The questions kept, in document order. */
  function ParsedQuestions(raw: seq<Value>): seq<Question> {
    Kept(raw, QuestionOf)
  }

  /** `parseQuestions(raw)`. */
  method ParseQuestions(raw: seq<Value>) returns (out: seq<Question>)
    ensures out == ParsedQuestions(raw)
  {
    out := [];
    var i := 0;
    while i < |raw|
      invariant 0 <= i <= |raw|
      invariant out == Kept(raw[..i], QuestionOf)
    {
      assert raw[..i + 1][..i] == raw[..i];
      var q := QuestionOf(raw[i]);
      if q.Some? {
        out := out + [q.value];
      }
      i := i + 1;
    }
    assert raw[..i] == raw;
  }

  /** One item of `parseTriggers`: an object whose `when` is an object and
      whose `activate` is an array, narrowed to its strings. */
  function TriggerOf(item: Value): Option<TriggerRule> {
    match (Prop(item, "when"), Prop(item, "activate"))
    case (Some(w), Some(L(xs))) => if w.M? || w.L? then Some(TriggerRule(w, StringsIn(xs))) else None
    case _ => None
  }

  /** The triggers kept, in document order. */
  function ParsedTriggers(raw: seq<Value>): seq<TriggerRule> {
    Kept(raw, TriggerOf)
  }

  /** `parseTriggers(raw)`. */
  method ParseTriggers(raw: seq<Value>) returns (out: seq<TriggerRule>)
    ensures out == ParsedTriggers(raw)
  {
    out := [];
    var i := 0;
    while i < |raw|
      invariant 0 <= i <= |raw|
      invariant out == Kept(raw[..i], TriggerOf)
    {
      assert raw[..i + 1][..i] == raw[..i];
      var t := TriggerOf(raw[i]);
      if t.Some? {
        out := out + [t.value];
      }
      i := i + 1;
    }
    assert raw[..i] == raw;
  }

  // ---- Properties ----------------------------------------------------------

  /** An item's parse is kept exactly when some item parses as it. */
  lemma {:induction false} KeptMembers<T>(raw: seq<Value>, parse: Value -> Option<T>, x: T)
    ensures x in Kept(raw, parse) <==> exists i | 0 <= i < |raw| :: parse(raw[i]) == Some(x)
    ensures |Kept(raw, parse)| <= |raw|
    decreases |raw|
  {
    if raw != [] {
      var n := |raw| - 1;
      KeptMembers(raw[..n], parse, x);
      assert forall i | 0 <= i < n :: raw[..n][i] == raw[i];
    }
  }

  /** A question is kept exactly when some item reads as it. */
  lemma ParsedQuestionsMembers(raw: seq<Value>, q: Question)
    ensures q in ParsedQuestions(raw) <==> exists i | 0 <= i < |raw| :: QuestionOf(raw[i]) == Some(q)
    ensures |ParsedQuestions(raw)| <= |raw|
  {
    KeptMembers(raw, QuestionOf, q);
  }

  /** A kept question has string id and text, a known type, a description
      that is non-blank and already trimmed, and allowed values from its
      array. */
  lemma QuestionShape(item: Value)
    requires QuestionOf(item).Some?
    ensures var q := QuestionOf(item).value;
      Prop(item, "id") == Some(S(q.id)) && Prop(item, "text") == Some(S(q.text))
      && TypeOf(Prop(item, "type")) == Some(q.qtype)
      && (q.description.Some? ==> q.description.value != "" && Trim(q.description.value) == q.description.value)
      && (q.allowed.Some? <==> Prop(item, "allowed").Some? && Prop(item, "allowed").value.L?)
      && (q.allowed.Some? ==> forall s :: s in q.allowed.value <==> S(s) in Prop(item, "allowed").value.items)
  {
    var q := QuestionOf(item).value;
    if q.description.Some? {
      TrimUnchanged(q.description.value);
    }
  }

  /** Every question the editor shows is one the evaluator requires when its
      namespace is in play: its id is among the document's ids. */
  lemma {:induction false} ParsedIdsRequired(raw: seq<Value>, i: nat)
    requires i < |ParsedQuestions(raw)|
    ensures ParsedQuestions(raw)[i].id in IdsIn(raw)
  {
    var q := ParsedQuestions(raw)[i];
    ParsedQuestionsMembers(raw, q);
    var j :| 0 <= j < |raw| && QuestionOf(raw[j]) == Some(q);
    IdsInMembers(raw, q.id);
  }

  /** The converse fails: a question without `text` is still required by the
      evaluator but never shown by the editor. */
  lemma UntitledQuestionRequiredButHidden()
    ensures var raw := [M(map["id" := S("q1"), "type" := S("bool")])];
      ParsedQuestions(raw) == [] && IdsIn(raw) == ["q1"]
  {
    var raw := [M(map["id" := S("q1"), "type" := S("bool")])];
    assert raw[..0] == [];
  }

  /** A trigger is kept exactly when some item reads as it. */
  lemma ParsedTriggersMembers(raw: seq<Value>, t: TriggerRule)
    ensures t in ParsedTriggers(raw) <==> exists i | 0 <= i < |raw| :: TriggerOf(raw[i]) == Some(t)
  {
    KeptMembers(raw, TriggerOf, t);
  }

  /** A trigger the editor keeps is read by the evaluator with the same
      condition and the same activated domains. */
  lemma KeptTriggerAgrees(item: Value)
    requires TriggerOf(item).Some?
    ensures CondOf(item) == TriggerOf(item).value.when
    ensures StringListAt(item, "activate") == TriggerOf(item).value.activate
  {
  }

  /** The editor drops a trigger without `when`; the evaluator reads the
      missing condition as `{}` and activates its domains for any facts. */
  lemma MissingWhenStillActivates(facts: Value)
    ensures var t := M(map["activate" := L([S("ai")])]);
      ParsedTriggers([t]) == [] && "ai" in ActivatedSet(facts, [t])
  {
    var t := M(map["activate" := L([S("ai")])]);
    assert [t][..0] == [];
    EmptyMatches(Js, Strict, facts);
    assert TsMatches(facts, CondOf(t));
    assert StringsIn([S("ai")]) == ["ai"] by {
      assert [S("ai")][..0] == [];
    }
    assert "ai" in StringListAt(t, "activate");
  }
}
