/** Display strings for model identifiers and answers
    (web/src/lib/formatting.ts). Case mapping is ASCII only. */
module Formatting {
  import opened Values
  import opened Text

  /** The words written in capitals instead of title case; each is written
      as its own upper case (`eu` as `EU`, `https` as `HTTPS`). */
  const Abbreviations: set<string> := {
    "eu", "us", "uk", "api", "url", "id", "sql", "json", "xml", "html",
    "css", "http", "https", "ssh", "ftp", "dns", "ip", "vpn", "ai", "ml",
    "ci", "cd", "iam", "mfa", "sso"}

  /** No abbreviation is longer than five letters. */
  lemma AbbreviationsShort(w: string)
    requires |w| > 5
    ensures w !in Abbreviations
  {
  }

  predicate LowerWord(s: string) {
    s != [] && forall i | 0 <= i < |s| :: IsAsciiLower(s[i])
  }

  /** `s.toUpperCase()` on ASCII letters. */
  function ToUpper(s: string): (r: string)
    ensures |r| == |s|
    ensures forall i | 0 <= i < |s| :: r[i] == UpperChar(s[i])
  {
    seq(|s|, i requires 0 <= i < |s| => UpperChar(s[i]))
  }

  /** The characters an identifier is split at. */
  const WordSeparators: set<char> := {'-', '_'}

  /** `str.charAt(0).toUpperCase() + str.slice(1)`. */
  function CapitalizeFirst(w: string): (r: string)
    ensures |r| == |w|
  {
    if w == [] then [] else [UpperChar(w[0])] + w[1..]
  }

  /** How `specialCases[lower]` finds a word. As written, the table is an
      object literal, so the lookup also finds what it inherits from
      `Object.prototype`; of those names only `constructor` is lower case and
      free of separators, and it finds the `Object` function, which the join
      renders as its source text. The corrected lookup finds only the table's
      own entries. */
  datatype Lookup = Inherited | OwnOnly

  /** `String(Object)`. */
  const ObjectSource: string := "function Object() { [native code] }"

  function TableLookup(lk: Lookup, lower: string): (r: Option<string>)
    ensures lower in Abbreviations ==> r == Some(ToUpper(lower))
    ensures lower !in Abbreviations ==> (r.Some? <==> lk == Inherited && lower == "constructor")
  {
    if lower in Abbreviations then Some(ToUpper(lower))
    else if lk == Inherited && lower == "constructor" then Some(ObjectSource)
    else None
  }

  /** The lookup finds nothing inherited for `w`. */
  predicate Plain(lk: Lookup, w: string) {
    lk == OwnOnly || ToLower(w) != "constructor"
  }

  /** One word: the table's entry for its lower case, otherwise the word with
      its first letter capitalized. */
  function FormatWord(lk: Lookup, w: string): string {
    match TableLookup(lk, ToLower(w))
    case Some(s) => s
    case None => CapitalizeFirst(w)
  }

  /** `formatIdentifier(id)`: split at `-` and `_`, format each word, join
      with single spaces. */
  function FormatIdentifier(lk: Lookup, id: string): string {
    Join(FormatWords(lk, SplitOn(id, WordSeparators)), " ")
  }

  /** `.map(word => ...)`: each word formatted, in order. */
  function FormatWords(lk: Lookup, words: seq<string>): (r: seq<string>)
    ensures |r| == |words| && forall i | 0 <= i < |words| :: r[i] == FormatWord(lk, words[i])
  {
    seq(|words|, i requires 0 <= i < |words| => FormatWord(lk, words[i]))
  }

  /** No word of `id` finds an inherited member. */
  predicate PlainWords(lk: Lookup, id: string) {
    forall i | 0 <= i < |SplitOn(id, WordSeparators)| :: Plain(lk, SplitOn(id, WordSeparators)[i])
  }

  /** `formatBoolean(value)`, with null and undefined both `None`. */
  function FormatBoolean(value: Option<bool>): (r: string)
    ensures value == None <==> r == "—"
    ensures value == Some(true) <==> r == "Yes"
    ensures value == Some(false) <==> r == "No"
  {
    match value
    case None => "—"
    case Some(b) => if b then "Yes" else "No"
  }

  /** `formatPhase`, `formatReferenceType`, `formatScope`,
      `formatEnforcementIntent` and `formatEvidenceType`: each formats its
      argument as an identifier, with no cases of its own. */
  function FormatPhase(phase: string): string { FormatIdentifier(Inherited, phase) }
  function FormatReferenceType(t: string): string { FormatIdentifier(Inherited, t) }
  function FormatScope(scope: string): string { FormatIdentifier(Inherited, scope) }
  function FormatEnforcementIntent(intent: string): string { FormatIdentifier(Inherited, intent) }
  function FormatEvidenceType(t: string): string { FormatIdentifier(Inherited, t) }

  /** `formatQuestionType(type)`: the three question types are described,
      anything else is formatted as an identifier. The descriptions are an
      object literal too: a type named like a member of `Object.prototype`
      finds that member, a function or object rather than a string (`None`). */
  function FormatQuestionType(t: string): Option<string> {
    if t == "bool" then Some("Yes/No")
    else if t == "enum" then Some("Single Choice")
    else if t == "set" then Some("Multiple Choice")
    else if t in PrototypeNames then None
    else Some(FormatIdentifier(Inherited, t))
  }

  /** JavaScript's `String(v)`: an array joins its elements with commas,
      null elements as empty strings. */
  function JsString(v: Value): string
    decreases v, 1
  {
    match v
    case Null => "null"
    case B(b) => if b then "true" else "false"
    case S(s) => s
    case L(xs) => Join(JsElements(v, xs), ",")
    case M(_) => "[object Object]"
  }

  function JsElements(v: Value, xs: seq<Value>): (r: seq<string>)
    requires v.L? && xs == v.items
    decreases v, 0
  {
    seq(|xs|, i requires 0 <= i < |xs| => if xs[i].Null? then "" else JsString(xs[i]))
  }

  /** One element of a list answer: a string as an identifier, anything
      else as `String(v)`. */
  function ShownItem(x: Value): string {
    if x.S? then FormatIdentifier(Inherited, x.s) else JsString(x)
  }

  /** `formatAnswerValue(value)`, with `undefined` as `None`. */
  function FormatAnswerValue(value: Option<Value>): string {
    match value
    case None => "—"
    case Some(Null) => "—"
    case Some(B(b)) => FormatBoolean(Some(b))
    case Some(L(xs)) => Join(seq(|xs|, i requires 0 <= i < |xs| => ShownItem(xs[i])), ", ")
    case Some(S(s)) => FormatIdentifier(Inherited, s)
    case Some(M(_)) => "[object Object]"
  }

  // ---- Properties ----------------------------------------------------------

  /** Capitalizing, and spelling an abbreviation in capitals, change letter
      case only. */
  lemma CaseOnly(w: string)
    ensures ToLower(CapitalizeFirst(w)) == ToLower(w)
    ensures ToLower(w) in Abbreviations ==> ToLower(ToUpper(ToLower(w))) == ToLower(w)
  {
    if ToLower(w) in Abbreviations {
      AbbreviationShape(ToLower(w));
    }
    var c := CapitalizeFirst(w);
    if w != [] {
      LowerOfUpper(w[0]);
      assert ToLower(c) == ToLower(w) by {
        forall i | 0 <= i < |w| ensures ToLower(c)[i] == ToLower(w)[i] {
        }
      }
    } else {
      assert ToLower(c) == ToLower(w);
    }
  }

  /** For a word the lookup finds nothing inherited for, formatting changes
      letter case only. */
  lemma FormatWordKeepsLetters(lk: Lookup, w: string)
    requires Plain(lk, w)
    ensures ToLower(FormatWord(lk, w)) == ToLower(w)
  {
    CaseOnly(w);
  }

  /** As written, the word `constructor` comes out as the source text of
      `Object`. */
  lemma ConstructorAsWritten(id: string)
    requires id == "constructor"
    ensures FormatIdentifier(Inherited, id) == ObjectSource
  {
    assert Free(id, WordSeparators);
    ToLowerOfLower(id);
    AbbreviationsShort(id);
    OneWord(Inherited, id);
  }

  /** As written, formatting is not idempotent: formatting `constructor`
      twice capitalizes the source text of `Object`. */
  lemma IdempotenceFailsAsWritten(id: string)
    requires id == "constructor"
    ensures FormatIdentifier(Inherited, FormatIdentifier(Inherited, id)) != FormatIdentifier(Inherited, id)
  {
    ConstructorAsWritten(id);
    var y := ObjectSource;
    ObjectSourceShape();
    OneWord(Inherited, y);
    var lower := ToLower(y);
    AbbreviationsShort(lower);
    assert lower != "constructor" by {
      assert |lower| == 35 != |"constructor"|;
    }
    assert TableLookup(Inherited, lower) == None;
    assert FormatWord(Inherited, y)[0] == UpperChar('f') == 'F';
  }

  /** The source text of `Object` is one word of 35 characters starting
      with a lower-case `f`. */
  lemma ObjectSourceShape()
    ensures Free(ObjectSource, WordSeparators) && |ObjectSource| == 35 && ObjectSource[0] == 'f'
  {
  }

  /** Looking up only the table's own entries, `constructor` is an ordinary
      word and comes out capitalized. */
  lemma ConstructorCorrected(id: string)
    requires id == "constructor"
    ensures FormatIdentifier(OwnOnly, id) == "Constructor"
  {
    assert [UpperChar(id[0])] + id[1..] == "Constructor" by {
      assert id[0] == 'c' && UpperChar('c') == 'C';
    }
    LongWordIs(OwnOnly, id, "Constructor");
  }

  /** Apart from that one word, the as-written lookup is the own-entry lookup. */
  lemma AsWrittenAgreesElsewhere(w: string)
    requires ToLower(w) != "constructor"
    ensures FormatWord(Inherited, w) == FormatWord(OwnOnly, w)
  {
  }

  /** An identifier none of whose words is `constructor` formats the same
      under both lookups. */
  lemma LookupsAgree(id: string)
    requires PlainWords(Inherited, id)
    ensures FormatIdentifier(Inherited, id) == FormatIdentifier(OwnOnly, id)
  {
    var words := SplitOn(id, WordSeparators);
    var a := FormatWords(Inherited, words);
    var b := FormatWords(OwnOnly, words);
    forall i | 0 <= i < |words| ensures a[i] == b[i] {
      AsWrittenAgreesElsewhere(words[i]);
    }
    assert a == b;
  }

  /** An identifier without separators is one word. */
  lemma OneWord(lk: Lookup, w: string)
    requires Free(w, WordSeparators)
    ensures FormatIdentifier(lk, w) == FormatWord(lk, w)
  {
    SplitFree(w, WordSeparators);
    var words := SplitOn(w, WordSeparators);
    assert FormatWords(lk, words) == [FormatWord(lk, w)];
  }

  /** A separator-free identifier longer than any abbreviation, for which the
      lookup finds nothing inherited, is capitalized. */
  lemma LongWordIs(lk: Lookup, w: string, cap: string)
    requires Free(w, WordSeparators) && |w| > 5 && Plain(lk, w)
    requires cap == [UpperChar(w[0])] + w[1..]
    ensures FormatIdentifier(lk, w) == cap
  {
    OneWord(lk, w);
    AbbreviationsShort(ToLower(w));
  }

  /** An identifier of two words joined by a separator. */
  lemma TwoWords(lk: Lookup, a: string, c: char, b: string)
    requires Free(a, WordSeparators) && Free(b, WordSeparators) && c in WordSeparators
    ensures FormatIdentifier(lk, a + [c] + b) == FormatWord(lk, a) + " " + FormatWord(lk, b)
  {
    SplitAfterFree(a, c, b, WordSeparators);
    SplitFree(b, WordSeparators);
    var words := SplitOn(a + [c] + b, WordSeparators);
    assert words == [a, b];
    var fws := FormatWords(lk, words);
    assert fws == [FormatWord(lk, a), FormatWord(lk, b)];
    assert Join(fws, " ") == fws[0] + " " + Join(fws[1..], " ");
    assert fws[1..] == [FormatWord(lk, b)];
  }

  /** Two words joined by `_`, each with its known formatting. */
  lemma Joined(a: string, b: string, fa: string, fb: string, id: string)
    requires Free(a, WordSeparators) && Free(b, WordSeparators) && id == a + ['_'] + b
    requires FormatWord(Inherited, a) == fa && FormatWord(Inherited, b) == fb
    ensures FormatIdentifier(Inherited, id) == fa + " " + fb
  {
    TwoWords(Inherited, a, '_', b);
  }

  /** A word without capitals that is no abbreviation, and for which the
      lookup finds nothing inherited, is capitalized. */
  lemma PlainWord(lk: Lookup, w: string, cap: string)
    requires w != [] && forall i | 0 <= i < |w| :: !IsAsciiUpper(w[i])
    requires w !in Abbreviations && (lk == OwnOnly || w != "constructor")
    requires cap == [UpperChar(w[0])] + w[1..]
    ensures FormatWord(lk, w) == cap
  {
    ToLowerOfLower(w);
  }

  /** The first example the function documents. */
  lemma NonEuExample(id: string)
    requires id == "non_eu"
    ensures FormatIdentifier(Inherited, id) == "Non EU"
  {
    NonEuWords();
    NonEuSpelled();
    Joined("non", "eu", "Non", "EU", id);
  }

  lemma NonEuSpelled()
    ensures "non_eu" == "non" + ['_'] + "eu"
    ensures "Non EU" == "Non" + " " + "EU"
  {
  }

  lemma NonEuWords()
    ensures FormatWord(Inherited, "non") == "Non" && FormatWord(Inherited, "eu") == "EU"
  {
    ToLowerOfLower("non");
    ToLowerOfLower("eu");
    assert "non" !in Abbreviations;
    assert CapitalizeFirst("non") == "Non";
    assert ToUpper("eu") == "EU";
  }

  /** The second example the function documents. */
  lemma DeploymentModelExample(id: string)
    requires id == "deployment_model"
    ensures FormatIdentifier(Inherited, id) == "Deployment Model"
  {
    DeploymentModelWords();
    DeploymentModelSpelled();
    Joined("deployment", "model", "Deployment", "Model", id);
  }

  lemma DeploymentModelSpelled()
    ensures "deployment_model" == "deployment" + ['_'] + "model"
    ensures "Deployment Model" == "Deployment" + " " + "Model"
  {
  }

  lemma DeploymentModelWords()
    ensures FormatWord(Inherited, "deployment") == "Deployment" && FormatWord(Inherited, "model") == "Model"
  {
    AbbreviationsShort("deployment");
    PlainWord(Inherited, "deployment", "Deployment");
    PlainWord(Inherited, "model", "Model");
  }

  /** Despite the documentation, a camelCase identifier is not split: it is
      one word, and only its first letter changes. */
  lemma CamelCaseIsOneWord(id: string)
    requires id == "deploymentModel"
    ensures FormatIdentifier(Inherited, id) == "DeploymentModel"
  {
    assert [UpperChar(id[0])] + id[1..] == "DeploymentModel" by {
      assert id[0] == 'd' && UpperChar('d') == 'D';
    }
    ToLowerOfLowerPrefix(id);
    LongWordIs(Inherited, id, "DeploymentModel");
  }

  /** A word with a capital is not the lower-case word `constructor` after
      lower-casing only if its lower case differs; here the length does. */
  lemma ToLowerOfLowerPrefix(id: string)
    requires |id| != |"constructor"|
    ensures ToLower(id) != "constructor"
  {
  }

  /** The question types get their descriptions. */
  lemma QuestionTypeLabels(t: string)
    requires t in {"bool", "enum", "set"}
    ensures FormatQuestionType(t) == Some(if t == "bool" then "Yes/No" else if t == "enum" then "Single Choice" else "Multiple Choice")
  {
  }

  /** Every other type is formatted as an identifier, except a name
      inherited from `Object.prototype`, which yields no string. */
  lemma FallbackLabel(t: string)
    requires t != "bool" && t != "enum" && t != "set"
    ensures FormatQuestionType(t).None? <==> t in PrototypeNames
    ensures t !in PrototypeNames ==> FormatQuestionType(t) == Some(FormatIdentifier(Inherited, t))
  {
  }

  /** A two-word type falls back to its identifier label. */
  lemma MultiSelectLabel(t: string)
    requires t == "multi_select"
    ensures FormatQuestionType(t) == Some("Multi Select")
  {
    assert t != "bool" && t != "enum" && t != "set";
    NotInherited(t);
    FallbackLabel(t);
    MultiSelectIdentifier(t);
  }

  lemma MultiSelectIdentifier(t: string)
    requires t == "multi_select"
    ensures FormatIdentifier(Inherited, t) == "Multi Select"
  {
    MultiSelectWords();
    MultiSelectSpelled();
    Joined("multi", "select", "Multi", "Select", t);
  }

  lemma MultiSelectSpelled()
    ensures "multi_select" == "multi" + ['_'] + "select"
    ensures "Multi Select" == "Multi" + " " + "Select"
  {
  }

  /** No inherited name is twelve characters long. */
  lemma NotInherited(t: string)
    requires |t| == 12
    ensures t !in PrototypeNames
  {
  }

  lemma MultiSelectWords()
    ensures FormatWord(Inherited, "multi") == "Multi" && FormatWord(Inherited, "select") == "Select"
  {
    PlainWord(Inherited, "multi", "Multi");
    AbbreviationsShort("select");
    PlainWord(Inherited, "select", "Select");
  }

  /** An answer list shows each string formatted as an identifier, joined
      with a comma and a space. */
  lemma AnswerListOfTwo(a: string, b: string)
    ensures FormatAnswerValue(Some(L([S(a), S(b)]))) == FormatIdentifier(Inherited, a) + ", " + FormatIdentifier(Inherited, b)
  {
    var xs := [S(a), S(b)];
    var shown := seq(|xs|, i requires 0 <= i < |xs| => ShownItem(xs[i]));
    assert shown == [FormatIdentifier(Inherited, a), FormatIdentifier(Inherited, b)];
    assert Join(shown, ", ") == shown[0] + ", " + Join(shown[1..], ", ");
    assert shown[1..] == [FormatIdentifier(Inherited, b)];
  }

  /** A one-item list shows its string formatted as a string answer would
      be, and any other item as `String(x)` (a boolean as `true`, not `Yes`). */
  lemma AnswerSingleton(x: Value)
    ensures FormatAnswerValue(Some(L([x]))) == (if x.S? then FormatAnswerValue(Some(x)) else JsString(x))
  {
    var shown := seq(1, i requires 0 <= i < 1 => ShownItem([x][i]));
    assert shown == [ShownItem(x)];
  }

  /** One more item of a non-empty list answer appends a comma, a space and
      that item's display. */
  lemma AnswerListSnoc(xs: seq<Value>, x: Value)
    requires xs != []
    ensures FormatAnswerValue(Some(L(xs + [x]))) == FormatAnswerValue(Some(L(xs))) + ", " + ShownItem(x)
  {
    var ys := xs + [x];
    var a := seq(|xs|, i requires 0 <= i < |xs| => ShownItem(xs[i]));
    var b := seq(|ys|, i requires 0 <= i < |ys| => ShownItem(ys[i]));
    assert b == a + [ShownItem(x)];
    JoinSnoc(a, ShownItem(x), ", ");
  }

  /** A missing answer shows as a dash, and so does an answer that is the
      dash itself: the display cannot tell them apart. */
  lemma DashIsAmbiguous(dash: string)
    requires dash == "—"
    ensures FormatAnswerValue(None) == FormatAnswerValue(Some(Null)) == dash
    ensures FormatAnswerValue(Some(S(dash))) == dash
  {
    assert Free(dash, WordSeparators);
    OneWord(Inherited, dash);
    ToLowerOfLower(dash);
    assert dash !in Abbreviations;
  }

  /** Every abbreviation is a lower-case word. */
  lemma AbbreviationsLower()
    ensures forall k | k in Abbreviations :: LowerWord(k)
  {
  }

  /** A word without capitals is its own lower case. */
  lemma ToLowerOfLower(s: string)
    requires forall i | 0 <= i < |s| :: !IsAsciiUpper(s[i])
    ensures ToLower(s) == s
  {
  }

  /** An abbreviation's capitals are separator- and space-free, start with a
      capital and lower-case back to it. */
  lemma AbbreviationShape(k: string)
    requires k in Abbreviations
    ensures var a := ToUpper(k);
      a != [] && IsAsciiUpper(a[0]) && ToLower(a) == k && Free(a, WordSeparators + {' '})
  {
    AbbreviationsLower();
    var a := ToUpper(k);
    assert forall i | 0 <= i < |k| :: IsAsciiUpper(a[i]) && LowerChar(a[i]) == k[i];
  }

  predicate FirstFixed(s: string) {
    s == [] || UpperChar(s[0]) == s[0]
  }

  lemma LowerOfUpper(c: char)
    ensures LowerChar(UpperChar(c)) == LowerChar(c)
  {
  }

  /** A formatted word keeps the word's separators out and starts with a
      character capitalizing leaves alone; when the lookup finds nothing
      inherited, formatting it again changes nothing. */
  lemma FormatWordShape(lk: Lookup, w: string)
    requires Free(w, WordSeparators) && Plain(lk, w)
    ensures Free(FormatWord(lk, w), WordSeparators)
    ensures FirstFixed(FormatWord(lk, w))
    ensures FormatWord(lk, FormatWord(lk, w)) == FormatWord(lk, w)
  {
    FormatWordKeepsLetters(lk, w);
    if ToLower(w) in Abbreviations {
      AbbreviationShape(ToLower(w));
    }
  }

  /** The joined words hold no separator, and start with a fixed character. */
  lemma {:induction false} JoinShape(parts: seq<string>)
    requires |parts| >= 1
    requires forall i | 0 <= i < |parts| :: Free(parts[i], WordSeparators) && FirstFixed(parts[i])
    ensures Free(Join(parts, " "), WordSeparators)
    ensures FirstFixed(Join(parts, " "))
    ensures |parts| >= 2 ==> ' ' in Join(parts, " ")
    decreases |parts|
  {
    if |parts| >= 2 {
      JoinShape(parts[1..]);
      var y := Join(parts, " ");
      assert y == parts[0] + " " + Join(parts[1..], " ");
      assert y[|parts[0]|] == ' ';
      forall i | 0 <= i < |y| ensures y[i] !in WordSeparators {
        if i < |parts[0]| {
          assert y[i] == parts[0][i];
        } else if i > |parts[0]| {
          assert y[i] == Join(parts[1..], " ")[i - |parts[0]| - 1];
        }
      }
    }
  }

  /** The formatted words of an identifier none of whose words finds an
      inherited member are separator-free and start with a fixed character. */
  lemma FormattedWordsShape(lk: Lookup, id: string, fws: seq<string>)
    requires PlainWords(lk, id) && fws == FormatWords(lk, SplitOn(id, WordSeparators))
    ensures |fws| >= 1
    ensures forall i | 0 <= i < |fws| :: Free(fws[i], WordSeparators) && FirstFixed(fws[i])
  {
    var words := SplitOn(id, WordSeparators);
    SplitPiecesFree(id, WordSeparators);
    forall i | 0 <= i < |fws| ensures Free(fws[i], WordSeparators) && FirstFixed(fws[i]) {
      FormatWordShape(lk, words[i]);
    }
  }

  /** A separator-free label with a space and a fixed first character is
      left alone: it is one word that no lookup finds. */
  lemma SpacedLabelSettles(lk: Lookup, y: string)
    requires Free(y, WordSeparators) && FirstFixed(y) && ' ' in y
    ensures FormatIdentifier(lk, y) == y
  {
    OneWord(lk, y);
    var p :| 0 <= p < |y| && y[p] == ' ';
    assert ToLower(y)[p] == ' ';
    assert ' ' in ToLower(y) && ' ' !in "constructor";
    assert ToLower(y) !in Abbreviations by {
      if ToLower(y) in Abbreviations {
        AbbreviationShape(ToLower(y));
      }
    }
    assert TableLookup(lk, ToLower(y)) == None;
  }

  /** Formatting a display name again changes nothing, when no word of the
      identifier finds an inherited member (always, with the corrected
      lookup). */
  lemma FormatIdentifierIdempotent(lk: Lookup, id: string)
    requires PlainWords(lk, id)
    ensures FormatIdentifier(lk, FormatIdentifier(lk, id)) == FormatIdentifier(lk, id)
  {
    var words := SplitOn(id, WordSeparators);
    var fws := FormatWords(lk, words);
    FormattedWordsShape(lk, id, fws);
    var y := Join(fws, " ");
    JoinShape(fws);
    if |fws| == 1 {
      assert y == FormatWord(lk, words[0]);
      SplitPiecesFree(id, WordSeparators);
      FormatWordShape(lk, words[0]);
      OneWord(lk, y);
    } else {
      SpacedLabelSettles(lk, y);
    }
  }

  /** The five labels agree with each other and, like `formatIdentifier`,
      leave an already formatted label alone when no word is `constructor`. */
  lemma AliasesAgreeAndSettle(x: string)
    requires PlainWords(Inherited, x)
    ensures FormatPhase(x) == FormatReferenceType(x) == FormatScope(x)
      == FormatEnforcementIntent(x) == FormatEvidenceType(x)
    ensures FormatPhase(FormatPhase(x)) == FormatPhase(x)
    ensures FormatEvidenceType(FormatEvidenceType(x)) == FormatEvidenceType(x)
  {
    FormatIdentifierIdempotent(Inherited, x);
  }
}
