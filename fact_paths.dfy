/** Resolving a dotted path such as `base.region` in a facts tree. The same
    walk exists four times in the repository (tools/riskctl.py `deep_get`,
    and `deepGet` in web/src/lib/evaluator.ts, web/app/api/diff/route.ts and
    web/src/components/systemEditor/facts.ts); it is modelled once here, with
    the one difference between the runtimes made a parameter. */
module FactPaths {
  import opened Values
  import opened Text

  /** Python steps only into a `dict`; JavaScript steps into any non-null
      object, so an array is entered by its decimal index keys. */
  datatype Lang = Py | Js

  /** The segments of a dotted path: `dotted.split(".")`. */
  function Segments(dotted: string): (parts: seq<string>)
    ensures |parts| >= 1
    ensures forall i | 0 <= i < |parts| :: Free(parts[i], {'.'})
  {
    SplitPiecesFree(dotted, {'.'});
    SplitOn(dotted, {'.'})
  }

  /** One step of the walk: the entry `key` of `v`, if `v` may be entered and
      has that key. */
  function Child(lang: Lang, v: Value, key: string): (r: Option<Value>)
    ensures r.Some? ==> v.M? || (lang == Js && v.L?)
  {
    match v
    case M(m) => if key in m then Some(m[key]) else None
    case L(xs) =>
      if lang == Js && ParseIndex(key).Some? && ParseIndex(key).value < |xs|
      then Some(xs[ParseIndex(key).value]) else None
    case _ => None
  }

  /** What the walk along `parts` reaches; `None` when a segment is missing or
      an intermediate value cannot be entered. */
  function Resolve(lang: Lang, v: Value, parts: seq<string>): Option<Value>
    decreases |parts|
  {
    if parts == [] then Some(v)
    else
      match Child(lang, v, parts[0])
      case None => None
      case Some(c) => Resolve(lang, c, parts[1..])
  }

  /** The value at a dotted path, or `None` (JavaScript `undefined`). */
  function Lookup(lang: Lang, v: Value, dotted: string): Option<Value> {
    Resolve(lang, v, Segments(dotted))
  }

  /** The value at a dotted path with absence collapsed to null, as the
      Python and the two null-returning TypeScript copies report it. */
  function FactAt(lang: Lang, v: Value, dotted: string): Value {
    Lookup(lang, v, dotted).GetOr(Null)
  }

  /** Walking a longer path is walking its first part, then the rest. */
  lemma {:induction false} ResolveAppend(lang: Lang, v: Value, p: seq<string>, q: seq<string>)
    ensures Resolve(lang, v, p + q) ==
      match Resolve(lang, v, p)
      case None => None
      case Some(c) => Resolve(lang, c, q)
    decreases |p|
  {
    if p != [] {
      assert (p + q)[0] == p[0] && (p + q)[1..] == p[1..] + q;
      match Child(lang, v, p[0])
      case None =>
      case Some(c) => ResolveAppend(lang, c, p[1..], q);
    } else {
      assert p + q == q;
    }
  }

  /** The walk fails exactly when some prefix of the path resolves to a value
      that lacks the next segment or cannot be entered. */
  lemma {:induction false} ResolveNoneIff(lang: Lang, v: Value, parts: seq<string>)
    ensures Resolve(lang, v, parts).None? <==>
      exists i | 0 <= i < |parts| ::
        Resolve(lang, v, parts[..i]).Some? && Child(lang, Resolve(lang, v, parts[..i]).value, parts[i]).None?
    decreases |parts|
  {
    if parts != [] {
      assert parts[..0] == [];
      match Child(lang, v, parts[0])
      case None =>
      case Some(c) =>
        var rest := parts[1..];
        ResolveNoneIff(lang, c, rest);
        forall i | 0 <= i < |rest|
          ensures Resolve(lang, v, parts[..i + 1]) == Resolve(lang, c, rest[..i])
          ensures parts[i + 1] == rest[i]
        {
          assert parts[..i + 1][1..] == rest[..i];
        }
        if Resolve(lang, v, parts).None? {
          var i :| 0 <= i < |rest| && Resolve(lang, c, rest[..i]).Some?
            && Child(lang, Resolve(lang, c, rest[..i]).value, rest[i]).None?;
          assert Resolve(lang, v, parts[..i + 1]).Some?
            && Child(lang, Resolve(lang, v, parts[..i + 1]).value, parts[i + 1]).None?;
        } else {
          forall i | 0 <= i < |parts| && Resolve(lang, v, parts[..i]).Some?
            ensures Child(lang, Resolve(lang, v, parts[..i]).value, parts[i]).Some?
          {
            if i > 0 {
              assert Resolve(lang, v, parts[..i]) == Resolve(lang, c, rest[..i - 1]);
            }
          }
        }
    }
  }

  /** Every value strictly on the way to a found fact is a mapping under
      Python and a mapping or a list under JavaScript. */
  lemma {:induction false} ResolveThroughObjects(lang: Lang, v: Value, parts: seq<string>, i: nat)
    requires Resolve(lang, v, parts).Some? && i < |parts|
    ensures Resolve(lang, v, parts[..i]).Some?
    ensures var w := Resolve(lang, v, parts[..i]).value; w.M? || (lang == Js && w.L?)
    decreases |parts|
  {
    var c := Child(lang, v, parts[0]).value;
    if i > 0 {
      ResolveThroughObjects(lang, c, parts[1..], i - 1);
      assert parts[..i][1..] == parts[1..][..i - 1];
    } else {
      assert parts[..0] == [];
    }
  }

  /** Whatever Python finds, JavaScript finds too. */
  lemma {:induction false} PyFoundJsFound(v: Value, parts: seq<string>)
    requires Resolve(Py, v, parts).Some?
    ensures Resolve(Js, v, parts) == Resolve(Py, v, parts)
    decreases |parts|
  {
    if parts != [] {
      PyFoundJsFound(Child(Py, v, parts[0]).value, parts[1..]);
    }
  }

  /** A list on the way is where the two runtimes part: JavaScript reads
      `a.0` of `{"a": ["x"]}` as "x", Python finds nothing. */
  lemma ListIntermediateDiffers()
    ensures Lookup(Js, M(map["a" := L([S("x")])]), "a.0") == Some(S("x"))
    ensures Lookup(Py, M(map["a" := L([S("x")])]), "a.0") == None
  {
    var parts := Segments("a.0");
    SplitAfterFree("a", '.', "0", {'.'});
    SplitFree("0", {'.'});
    assert parts == ["a", "0"];
    ParseDecimal(0);
    assert NatToDecimal(0) == "0";
  }

  /** `deep_get` / `deepGet` as they run: split the path, then step through
      it with a cursor, giving up at the first segment that cannot be taken.
      This is the undefined-returning copy in web/app/api/diff/route.ts. */
  method Walk(lang: Lang, obj: Value, dotted: string) returns (r: Option<Value>)
    ensures r == Lookup(lang, obj, dotted)
    ensures r.Some? ==> forall i | 0 <= i < |Segments(dotted)| ::
      Child(lang, Resolve(lang, obj, Segments(dotted)[..i]).GetOr(Null), Segments(dotted)[i]).Some?
  {
    var parts := Segments(dotted);
    var cur := obj;
    var i := 0;
    while i < |parts|
      invariant 0 <= i <= |parts|
      invariant Resolve(lang, obj, parts[..i]) == Some(cur)
    {
      var step := Child(lang, cur, parts[i]);
      if step.None? {
        ResolveAppend(lang, obj, parts[..i], parts[i..]);
        assert parts[..i] + parts[i..] == parts;
        return None;
      }
      ResolveAppend(lang, obj, parts[..i], [parts[i]]);
      assert parts[..i] + [parts[i]] == parts[..i + 1];
      cur := step.value;
      i := i + 1;
    }
    assert parts[..i] == parts;
    r := Some(cur);
    forall j | 0 <= j < |parts|
      ensures Child(lang, Resolve(lang, obj, parts[..j]).GetOr(Null), parts[j]).Some?
    {
      ResolveAppend(lang, obj, parts[..j], [parts[j]]);
      assert parts[..j] + [parts[j]] == parts[..j + 1];
      ResolveThroughObjects(lang, obj, parts, j);
      if j + 1 < |parts| {
        ResolveThroughObjects(lang, obj, parts, j + 1);
      } else {
        assert parts[..j + 1] == parts;
      }
    }
  }

  /** The null-returning copies (tools/riskctl.py, evaluator.ts, facts.ts):
      a missing path and a stored null both read as null. */
  method DeepGet(lang: Lang, obj: Value, dotted: string) returns (v: Value)
    ensures v == FactAt(lang, obj, dotted)
    ensures v != Null <==> Lookup(lang, obj, dotted).Some? && Lookup(lang, obj, dotted).value != Null
  {
    var r := Walk(lang, obj, dotted);
    v := if r.None? then Null else r.value;
  }
}
