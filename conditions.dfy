/** Condition matching: a condition maps path keys to expected values, and a
    facts tree satisfies it when every pair holds. Python
    (`matches_condition`, tools/riskctl.py) and TypeScript (`matchesCondition`,
    web/src/lib/evaluator.ts) share the rule but not the notion of equality. */
module Conditions {
  import opened Values
  import opened Text
  import opened FactPaths

  /** Python's `==` compares structurally; JavaScript's `!==` and `includes`
      compare null, booleans and strings by value and every array or object by
      reference. A condition document and a facts document never share an
      object, so a by-reference comparison between them is always unequal. */
  datatype Equality = Structural | Strict

  /** The comparison a pair uses, chosen by the shape of the fact. */
  datatype Strategy = Contains | Equals

  function StrategyFor(actual: Value, expected: Value): (s: Strategy)
    ensures s == Contains <==> actual.L? && !expected.L?
  {
    if actual.L? && !expected.L? then Contains else Equals
  }

  predicate SameValue(eq: Equality, a: Value, b: Value) {
    match eq
    case Structural => a == b
    case Strict => a.IsPrimitive() && a == b
  }

  /** The path a condition key names: a key without a dot lives under `base`. */
  function KeyPath(k: string): (p: string)
    ensures '.' in k ==> p == k
    ensures '.' !in k ==> p == "base." + k
  {
    if '.' in k then k else "base." + k
  }

  /** The fact a condition key refers to, null when absent. */
  function Actual(lang: Lang, facts: Value, k: string): Value {
    FactAt(lang, facts, KeyPath(k))
  }

  /** One key/value pair of a condition, given the fact it refers to. */
  predicate PairHolds(eq: Equality, actual: Value, expected: Value) {
    match StrategyFor(actual, expected)
    case Contains => exists i | 0 <= i < |actual.items| :: SameValue(eq, actual.items[i], expected)
    case Equals => SameValue(eq, actual, expected)
  }

  /** Every pair holds; the keys form a map, so their order plays no part. */
  predicate Matches(lang: Lang, eq: Equality, facts: Value, cond: map<string, Value>) {
    forall k | k in cond :: PairHolds(eq, Actual(lang, facts, k), cond[k])
  }

  /** `matches_condition(facts, cond)` in tools/riskctl.py. */
  predicate PyMatches(facts: Value, cond: map<string, Value>) {
    Matches(Py, Structural, facts, cond)
  }

  /** The own entries `Object.entries(cond)` iterates: a mapping's pairs, the
      index pairs of an array or a string, nothing for a boolean. */
  function Entries(cond: Value): (e: map<string, Value>)
    ensures cond.M? ==> e == cond.fields
    ensures cond.B? || cond.Null? ==> e == map[]
  {
    match cond
    case M(m) => m
    case L(xs) => IndexEntries(xs)
    case S(s) => IndexEntries(seq(|s|, i requires 0 <= i < |s| => S([s[i]])))
    case _ => map[]
  }

  /** `matchesCondition(facts, cond)` in web/src/lib/evaluator.ts. */
  predicate TsMatches(facts: Value, cond: Value) {
    Matches(Js, Strict, facts, Entries(cond))
  }

  // ---- Properties ----------------------------------------------------------

  /** A dotless key is looked up as `base.<key>`; a dotted key as written. */
  lemma KeySegments(k: string)
    ensures '.' !in k ==> Segments(KeyPath(k)) == ["base", k]
    ensures '.' in k ==> Segments(KeyPath(k)) == Segments(k)
  {
    if '.' !in k {
      assert Free(k, {'.'});
      assert "base." + k == "base" + ['.'] + k;
      SplitAfterFree("base", '.', k, {'.'});
      SplitFree(k, {'.'});
    }
  }

  /** A pair on a list fact and a non-list value is a membership test; any
      other pair is an equality test. */
  lemma PairRule(eq: Equality, actual: Value, expected: Value)
    ensures actual.L? && !expected.L? ==>
      (PairHolds(eq, actual, expected) <==> exists x | x in actual.items :: SameValue(eq, x, expected))
    ensures !(actual.L? && !expected.L?) ==> (PairHolds(eq, actual, expected) <==> SameValue(eq, actual, expected))
  {
    if actual.L? && !expected.L? {
      if exists x | x in actual.items :: SameValue(eq, x, expected) {
        var x :| x in actual.items && SameValue(eq, x, expected);
        var i :| 0 <= i < |actual.items| && actual.items[i] == x;
      }
    }
  }

  /** An absent fact reads as null, so its pair holds only for an expected null. */
  lemma AbsentFact(eq: Equality, expected: Value)
    ensures PairHolds(eq, Null, expected) <==> expected == Null
  {
  }

  /** The empty condition always matches. */
  lemma EmptyMatches(lang: Lang, eq: Equality, facts: Value)
    ensures Matches(lang, eq, facts, map[])
  {
  }

  /** Conditions on disjoint keys combine by conjunction. */
  lemma MatchesUnion(lang: Lang, eq: Equality, facts: Value, c1: map<string, Value>, c2: map<string, Value>)
    requires c1.Keys !! c2.Keys
    ensures Matches(lang, eq, facts, c1 + c2) <==> Matches(lang, eq, facts, c1) && Matches(lang, eq, facts, c2)
  {
    if Matches(lang, eq, facts, c1) && Matches(lang, eq, facts, c2) {
      forall k | k in c1 + c2 ensures PairHolds(eq, Actual(lang, facts, k), (c1 + c2)[k]) {
        if k in c2 {
          assert (c1 + c2)[k] == c2[k];
        } else {
          assert (c1 + c2)[k] == c1[k];
        }
      }
    }
    if Matches(lang, eq, facts, c1 + c2) {
      forall k | k in c1 ensures PairHolds(eq, Actual(lang, facts, k), c1[k]) {
        assert k !in c2 && (c1 + c2)[k] == c1[k];
      }
      forall k | k in c2 ensures PairHolds(eq, Actual(lang, facts, k), c2[k]) {
        assert (c1 + c2)[k] == c2[k];
      }
    }
  }

  /** What holds under strict comparison holds under structural comparison. */
  lemma StrictImpliesStructural(lang: Lang, facts: Value, cond: map<string, Value>)
    requires Matches(lang, Strict, facts, cond)
    ensures Matches(lang, Structural, facts, cond)
  {
    forall k | k in cond ensures PairHolds(Structural, Actual(lang, facts, k), cond[k]) {
      var a := Actual(lang, facts, k);
      if StrategyFor(a, cond[k]) == Contains {
        var i :| 0 <= i < |a.items| && SameValue(Strict, a.items[i], cond[k]);
        assert SameValue(Structural, a.items[i], cond[k]);
      }
    }
  }

  /** In TypeScript a list-valued expected value never holds: it is compared
      by reference with whatever the fact is. */
  lemma StrictListNeverHolds(actual: Value, expected: Value)
    requires expected.L?
    ensures !PairHolds(Strict, actual, expected)
  {
  }

  /** A matching TypeScript condition is also a matching Python condition,
      whenever the path walk of the two runtimes agrees. */
  lemma TsMatchImpliesPy(facts: Value, cond: map<string, Value>)
    requires TsMatches(facts, M(cond))
    requires forall k | k in cond :: Actual(Js, facts, k) == Actual(Py, facts, k)
    ensures PyMatches(facts, cond)
  {
    StrictImpliesStructural(Js, facts, cond);
    forall k | k in cond ensures PairHolds(Structural, Actual(Py, facts, k), cond[k]) {
      assert PairHolds(Structural, Actual(Js, facts, k), cond[k]);
    }
  }

  /** The facts of the membership fixture: `base.region` holds ["eu", "us"]. */
  function RegionFacts(): Value {
    M(map["base" := M(map["region" := L([S("eu"), S("us")])])])
  }

  /** A key without a dot reads the `base` section of object facts. */
  lemma BaseActual(lang: Lang, base: map<string, Value>, k: string)
    requires '.' !in k && k in base
    ensures Actual(lang, M(map["base" := M(base)]), k) == base[k]
  {
    KeySegments(k);
    var parts := Segments(KeyPath(k));
    assert parts[0] == "base" && parts[1..] == [k];
    var facts := M(map["base" := M(base)]);
    assert Child(lang, facts, "base") == Some(M(base));
    assert Child(lang, M(base), k) == Some(base[k]);
    assert Resolve(lang, M(base), [k]) == Resolve(lang, base[k], []);
    assert Resolve(lang, facts, parts) == Resolve(lang, M(base), [k]);
  }

  lemma RegionActual(lang: Lang)
    ensures Actual(lang, RegionFacts(), "region") == L([S("eu"), S("us")])
  {
    BaseActual(lang, map["region" := L([S("eu"), S("us")])], "region");
  }

  /** `{region: "eu"}` is a membership test and matches in both runtimes. */
  lemma RegionMembership()
    ensures PyMatches(RegionFacts(), map["region" := S("eu")])
    ensures TsMatches(RegionFacts(), M(map["region" := S("eu")]))
  {
    RegionActual(Py);
    RegionActual(Js);
    assert L([S("eu"), S("us")]).items[0] == S("eu");
  }

  /** `{region: ["eu", "us"]}` is an equality test: Python compares the
      lists and matches, TypeScript compares references and does not. */
  lemma RegionListEquality()
    ensures PyMatches(RegionFacts(), map["region" := L([S("eu"), S("us")])])
    ensures !TsMatches(RegionFacts(), M(map["region" := L([S("eu"), S("us")])]))
  {
    RegionActual(Py);
    var cond := map["region" := L([S("eu"), S("us")])];
    assert "region" in Entries(M(cond));
    StrictListNeverHolds(Actual(Js, RegionFacts(), "region"), cond["region"]);
  }

  /** Python's list comparison is order-sensitive: `{region: ["us", "eu"]}`
      does not match ["eu", "us"]. */
  lemma RegionListOrder()
    ensures !PyMatches(RegionFacts(), map["region" := L([S("us"), S("eu")])])
  {
    RegionActual(Py);
    var swapped := L([S("us"), S("eu")]);
    assert swapped != L([S("eu"), S("us")]) by {
      assert swapped.items[0] != L([S("eu"), S("us")]).items[0];
    }
    assert !PairHolds(Structural, L([S("eu"), S("us")]), swapped);
  }
}
