/** The already-parsed documents the engine works on: what the YAML or JSON
    reader hands over, restricted to null, booleans, strings, lists and
    mappings with string keys. */
module Values {

  datatype Option<+T> = None | Some(value: T) {
    function GetOr(default: T): T {
      match this
      case Some(v) => v
      case None => default
    }
  }

  /** One parsed document node. A mapping is unordered here; where the
      insertion order of a mapping is observable it is kept separately. */
  datatype Value =
    | Null
    | B(b: bool)
    | S(s: string)
    | L(items: seq<Value>)
    | M(fields: map<string, Value>)
  {
    /** JavaScript compares these by value; lists and mappings by reference. */
    predicate IsPrimitive() {
      Null? || B? || S?
    }

    /** Python truthiness of a value. */
    predicate PyTruthy() {
      match this
      case Null => false
      case B(b) => b
      case S(s) => s != ""
      case L(xs) => xs != []
      case M(m) => m != map[]
    }
  }

  /** JavaScript's `rec.name` for a property name that is not an array index:
      only a mapping has such an own property (inherited prototype members
      are not modelled). */
  function Prop(v: Value, name: string): (r: Option<Value>)
    ensures r.Some? ==> v.M? && name in v.fields && r.value == v.fields[name]
    ensures v.M? && name in v.fields ==> r.Some?
  {
    if v.M? && name in v.fields then Some(v.fields[name]) else None
  }

  /** JavaScript's `x ?? d`, with `None` standing for `undefined`. */
  function Nullish(x: Option<Value>, d: Value): (r: Value)
    ensures (x.None? || x.value.Null?) ==> r == d
    ensures x.Some? && !x.value.Null? ==> r == x.value
  {
    if x.None? || x.value.Null? then d else x.value
  }

  /** Python's `d.get(k, default)` on a dict with string keys. */
  function PyGet(d: map<string, Value>, k: string, default: Value): Value {
    if k in d then d[k] else default
  }

  // ---- Decimal array indices ------------------------------------------------
  // JavaScript turns an array into an object whose keys are the canonical
  // decimal spellings of its indices ({...["a"]} is {"0": "a"}), and `"0" in arr`
  // tests an index. These helpers give the spelling and its inverse.

  predicate IsDigit(c: char) {
    '0' <= c <= '9'
  }

  predicate AllDigits(s: string) {
    forall i | 0 <= i < |s| :: IsDigit(s[i])
  }

  function Digit(d: nat): (c: char)
    requires d < 10
    ensures IsDigit(c) && (c as int) - ('0' as int) == d
  {
    "0123456789"[d]
  }

  /** The canonical decimal spelling of `n`, as `String(n)` gives it. */
  function NatToDecimal(n: nat): (r: string)
    ensures r != [] && AllDigits(r)
    ensures r[0] == '0' ==> n == 0 && r == "0"
    decreases n
  {
    if n < 10 then [Digit(n)] else NatToDecimal(n / 10) + [Digit(n % 10)]
  }

  function DigitsValue(s: string): nat
    requires AllDigits(s)
  {
    if s == [] then 0
    else DigitsValue(s[..|s| - 1]) * 10 + ((s[|s| - 1] as int) - ('0' as int))
  }

  /** The index a string denotes as an array key: a canonical decimal numeral. */
  function ParseIndex(s: string): Option<nat> {
    if s != [] && AllDigits(s) && (s[0] != '0' || |s| == 1) then Some(DigitsValue(s)) else None
  }

  lemma {:induction false} DigitsValueOfDecimal(n: nat)
    ensures DigitsValue(NatToDecimal(n)) == n
    decreases n
  {
    if n >= 10 {
      var p := NatToDecimal(n / 10);
      var r := NatToDecimal(n);
      assert r == p + [Digit(n % 10)];
      assert r[..|r| - 1] == p;
      DigitsValueOfDecimal(n / 10);
    }
  }

  /** Spelling an index and reading it back gives the index. */
  lemma ParseDecimal(n: nat)
    ensures ParseIndex(NatToDecimal(n)) == Some(n)
  {
    DigitsValueOfDecimal(n);
  }

  lemma {:induction false} LeadingDigitPositive(s: string)
    requires s != [] && AllDigits(s) && s[0] != '0'
    ensures DigitsValue(s) > 0
    decreases |s|
  {
    if |s| > 1 {
      LeadingDigitPositive(s[..|s| - 1]);
    }
  }

  /** A string that reads as an index is that index's canonical spelling. */
  lemma {:induction false} DecimalOfParse(s: string)
    requires ParseIndex(s).Some?
    ensures NatToDecimal(ParseIndex(s).value) == s
    decreases |s|
  {
    if |s| > 1 {
      var p := s[..|s| - 1];
      assert p[0] == s[0];
      LeadingDigitPositive(p);
      assert ParseIndex(p) == Some(DigitsValue(p));
      DecimalOfParse(p);
      var n := DigitsValue(s);
      var d := (s[|s| - 1] as int) - ('0' as int);
      assert n == DigitsValue(p) * 10 + d;
      assert n / 10 == DigitsValue(p) && n % 10 == d;
      assert s == p + [s[|s| - 1]];
    }
  }

  /** Distinct indices have distinct spellings. */
  lemma DecimalInjective(i: nat, j: nat)
    requires NatToDecimal(i) == NatToDecimal(j)
    ensures i == j
  {
    ParseDecimal(i);
    ParseDecimal(j);
  }

  /** The own index entries of a list seen as a JavaScript object. */
  function IndexEntries(xs: seq<Value>): (m: map<string, Value>)
    decreases |xs|
  {
    if xs == [] then map[]
    else IndexEntries(xs[..|xs| - 1])[NatToDecimal(|xs| - 1) := xs[|xs| - 1]]
  }

  /** The keys of a list's index entries are exactly its index spellings, and
      each key holds the element at the index it spells. */
  lemma {:induction false} IndexEntriesAt(xs: seq<Value>, k: string)
    ensures k in IndexEntries(xs) <==> ParseIndex(k).Some? && ParseIndex(k).value < |xs|
    ensures k in IndexEntries(xs) ==> IndexEntries(xs)[k] == xs[ParseIndex(k).value]
    decreases |xs|
  {
    if xs != [] {
      var n := |xs| - 1;
      var p := xs[..n];
      var m := IndexEntries(xs);
      assert m == IndexEntries(p)[NatToDecimal(n) := xs[n]];
      IndexEntriesAt(p, k);
      if k == NatToDecimal(n) {
        ParseDecimal(n);
      } else if ParseIndex(k).Some? {
        DecimalOfParse(k);
        assert ParseIndex(k).value != n;
      }
    }
  }

  // ---- Sequences of sequences -------------------------------------------------

  /** The concatenation of the pieces, in order. */
  function Flatten<T>(xss: seq<seq<T>>): seq<T>
    decreases |xss|
  {
    if xss == [] then [] else Flatten(xss[..|xss| - 1]) + xss[|xss| - 1]
  }

  lemma FlattenSnoc<T>(xss: seq<seq<T>>, xs: seq<T>)
    ensures Flatten(xss + [xs]) == Flatten(xss) + xs
  {
    assert (xss + [xs])[..|xss|] == xss;
  }

  /** An element belongs to the concatenation exactly when it belongs to a piece. */
  lemma {:induction false} FlattenMembers<T>(xss: seq<seq<T>>, x: T)
    ensures x in Flatten(xss) <==> exists i | 0 <= i < |xss| :: x in xss[i]
    decreases |xss|
  {
    if xss != [] {
      var n := |xss| - 1;
      FlattenMembers(xss[..n], x);
      assert Flatten(xss) == Flatten(xss[..n]) + xss[n];
      assert forall i | 0 <= i < n :: xss[..n][i] == xss[i];
    }
  }

  /** How often `x` occurs in `xs`. */
  function Occurrences<T(==)>(x: T, xs: seq<T>): nat {
    multiset(xs)[x]
  }

  /** Appending one element after a concatenation appends it to the second part. */
  lemma SnocAfterConcat<T>(a: seq<T>, b: seq<T>, x: T)
    ensures a + b + [x] == a + (b + [x])
  {
  }

  lemma ConcatAssoc<T>(a: seq<T>, b: seq<T>, c: seq<T>)
    ensures a + (b + c) == (a + b) + c
  {
  }

  /** Counting in a sequence one element longer. */
  lemma OccurrencesSnoc<T>(x: T, xs: seq<T>)
    requires xs != []
    ensures Occurrences(x, xs) == Occurrences(x, xs[..|xs| - 1]) + (if xs[|xs| - 1] == x then 1 else 0)
  {
    assert xs == xs[..|xs| - 1] + [xs[|xs| - 1]];
  }

  /** `n` copies of `x`. */
  function Repeat<T>(x: T, n: nat): (r: seq<T>)
    ensures |r| == n && forall i | 0 <= i < n :: r[i] == x
  {
    seq(n, _ => x)
  }

  lemma RepeatSnoc<T>(x: T, n: nat)
    ensures Repeat(x, n) + [x] == Repeat(x, n + 1)
  {
  }

  /** The names a plain JavaScript object inherits from `Object.prototype`:
      `k in {}` holds for each of them, and `{}[k]` is a function (an object
      for `__proto__`), never undefined. */
  const PrototypeNames: set<string> := {"constructor", "__proto__", "toString", "toLocaleString", "valueOf",
    "hasOwnProperty", "isPrototypeOf", "propertyIsEnumerable",
    "__defineGetter__", "__defineSetter__", "__lookupGetter__", "__lookupSetter__"}
}
