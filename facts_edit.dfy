/** Editing a facts tree from the system editor
    (web/src/components/systemEditor/facts.ts). Both edits copy every object
    on the way to the edited path with an object spread and leave the input
    untouched; the edited copy is built in place through a cursor into the
    new root. Reading uses the null-returning walk `FactPaths.DeepGet`. */
module FactsEdit {
  import opened Values
  import opened FactPaths

  /** `{ ...(x && typeof x === "object" ? x : {}) }`: a mapping's own
      entries, a list's index entries, nothing for anything else. */
  function Spread(v: Value): (m: map<string, Value>)
    ensures v.M? ==> m == v.fields
    ensures !v.M? && !v.L? ==> m == map[]
  {
    match v
    case M(fields) => fields
    case L(xs) => IndexEntries(xs)
    case _ => map[]
  }

  /** `cur[p]` with `undefined` read as null: either way it is no object. */
  function Get(m: map<string, Value>, k: string): Value {
    if k in m then m[k] else Null
  }

  predicate IsObject(v: Value) {
    v.M? || v.L?
  }

  /** What `deepSet` builds: every object on the way copied (anything else
      on the way replaced by a fresh `{}`), and the last segment set. */
  function SetIn(v: Value, parts: seq<string>, value: Value): map<string, Value>
    requires |parts| >= 1
    decreases |parts|
  {
    var m := Spread(v);
    m[parts[0] := if |parts| == 1 then value else M(SetIn(Get(m, parts[0]), parts[1..], value))]
  }

  /** What `deepDelete` builds: the objects on the way copied, the last
      segment removed; the walk stops, keeping what it has copied so far,
      at the first intermediate value that is not an object. */
  function DeleteIn(v: Value, parts: seq<string>): map<string, Value>
    requires |parts| >= 1
    decreases |parts|
  {
    var m := Spread(v);
    if |parts| == 1 then m - {parts[0]}
    else
      var next := Get(m, parts[0]);
      if IsObject(next) then m[parts[0] := M(DeleteIn(next, parts[1..]))] else m
  }

  // ---- The cursor ----------------------------------------------------------

  /** The tree a cursor stands in: `stack` holds the copied objects from the
      root down and `keys` the segment taken out of each; `inner` is the
      object the cursor points at. */
  function Plug(stack: seq<map<string, Value>>, keys: seq<string>, inner: map<string, Value>): map<string, Value>
    requires |keys| == |stack|
    decreases |stack|
  {
    if stack == [] then inner
    else
      var n := |stack| - 1;
      Plug(stack[..n], keys[..n], stack[n][keys[n] := M(inner)])
  }

  /** The finished tree behind a cursor, rebuilt from the innermost object out. */
  method PlugBack(stack: seq<map<string, Value>>, keys: seq<string>, inner: map<string, Value>)
    returns (out: map<string, Value>)
    requires |keys| == |stack|
    ensures out == Plug(stack, keys, inner)
  {
    out := inner;
    var j := |stack|;
    assert stack[..j] == stack && keys[..j] == keys;
    while j > 0
      invariant 0 <= j <= |stack|
      invariant Plug(stack[..j], keys[..j], out) == Plug(stack, keys, inner)
    {
      assert stack[..j][..j - 1] == stack[..j - 1] && keys[..j][..j - 1] == keys[..j - 1];
      out := stack[j - 1][keys[j - 1] := M(out)];
      j := j - 1;
    }
  }

  /** Spreading a spread copy copies it again unchanged. */
  lemma SpreadTwice(v: Value)
    ensures Spread(M(Spread(v))) == Spread(v)
  {
  }

  /** One step of `deepSet` below the cursor: set the child's copy. */
  lemma SetStep(cur: map<string, Value>, rest: seq<string>, value: Value)
    requires |rest| >= 2
    ensures SetIn(M(cur), rest, value) == cur[rest[0] := M(SetIn(M(Spread(Get(cur, rest[0]))), rest[1..], value))]
  {
    SpreadTwice(Get(cur, rest[0]));
    assert SetIn(M(Spread(Get(cur, rest[0]))), rest[1..], value) == SetIn(Get(cur, rest[0]), rest[1..], value);
  }

  /** Moving the cursor one segment down: the parent is pushed and the
      cursor stands at `child`. */
  lemma PlugPush(stack: seq<map<string, Value>>, keys: seq<string>, cur: map<string, Value>, k: string,
                 inner: map<string, Value>)
    requires |keys| == |stack|
    ensures Plug(stack + [cur], keys + [k], inner) == Plug(stack, keys, cur[k := M(inner)])
  {
    assert (stack + [cur])[..|stack|] == stack && (keys + [k])[..|keys|] == keys;
  }

  /** One step of `deepSet`'s loop: push the current copy and stand in a
      copy of its child. */
  lemma DescendSet(stack: seq<map<string, Value>>, cur: map<string, Value>, parts: seq<string>, i: nat, value: Value)
    requires |stack| == i && i + 1 < |parts|
    ensures Plug(stack + [cur], parts[..i + 1], SetIn(M(Spread(Get(cur, parts[i]))), parts[i + 1..], value))
      == Plug(stack, parts[..i], SetIn(M(cur), parts[i..], value))
  {
    var p := parts[i];
    assert parts[i..][1..] == parts[i + 1..];
    SetStep(cur, parts[i..], value);
    PlugPush(stack, parts[..i], cur, p, SetIn(M(Spread(Get(cur, p))), parts[i + 1..], value));
    assert parts[..i] + [p] == parts[..i + 1];
  }

  /** One step of `deepDelete`'s loop, taken when the child is an object:
      push the current copy and stand in a copy of the child. */
  lemma DescendDelete(stack: seq<map<string, Value>>, cur: map<string, Value>, parts: seq<string>, i: nat)
    requires |stack| == i && i + 1 < |parts| && IsObject(Get(cur, parts[i]))
    ensures Plug(stack + [cur], parts[..i + 1], DeleteIn(M(Spread(Get(cur, parts[i]))), parts[i + 1..]))
      == Plug(stack, parts[..i], DeleteIn(M(cur), parts[i..]))
  {
    var p := parts[i];
    var next := Get(cur, p);
    assert parts[i..][1..] == parts[i + 1..];
    SpreadTwice(next);
    assert DeleteIn(M(Spread(next)), parts[i + 1..]) == DeleteIn(next, parts[i + 1..]);
    assert DeleteIn(M(cur), parts[i..]) == cur[p := M(DeleteIn(M(Spread(next)), parts[i + 1..]))];
    PlugPush(stack, parts[..i], cur, p, DeleteIn(M(Spread(next)), parts[i + 1..]));
    assert parts[..i] + [p] == parts[..i + 1];
  }

  /** `deepSet(obj, dotted, value)`. */
  method DeepSet(obj: Value, dotted: string, value: Value) returns (out: map<string, Value>)
    ensures out == SetIn(obj, Segments(dotted), value)
  {
    var parts := Segments(dotted);
    var cur := Spread(obj);
    var stack: seq<map<string, Value>> := [];
    var i := 0;
    while i < |parts| - 1
      invariant 0 <= i <= |parts| - 1
      invariant |stack| == i
      invariant Plug(stack, parts[..i], SetIn(M(cur), parts[i..], value)) == SetIn(obj, parts, value)
    {
      var next := Get(cur, parts[i]);
      var nextObj := Spread(next);
      DescendSet(stack, cur, parts, i, value);
      stack := stack + [cur];
      cur := nextObj;
      i := i + 1;
    }
    assert parts[i..] == [parts[|parts| - 1]];
    assert SetIn(M(cur), parts[i..], value) == cur[parts[|parts| - 1] := value];
    cur := cur[parts[|parts| - 1] := value];
    out := PlugBack(stack, parts[..i], cur);
  }

  /** `deepDelete(obj, dotted)`, with its early return when an intermediate
      value is not an object. */
  method DeepDelete(obj: Value, dotted: string) returns (out: map<string, Value>)
    ensures out == DeleteIn(obj, Segments(dotted))
  {
    var parts := Segments(dotted);
    var cur := Spread(obj);
    var stack: seq<map<string, Value>> := [];
    var i := 0;
    while i < |parts| - 1
      invariant 0 <= i <= |parts| - 1
      invariant |stack| == i
      invariant Plug(stack, parts[..i], DeleteIn(M(cur), parts[i..])) == DeleteIn(obj, parts)
    {
      var next := Get(cur, parts[i]);
      if !IsObject(next) {
        assert parts[i..][1..] == parts[i + 1..];
        out := PlugBack(stack, parts[..i], cur);
        return;
      }
      var nextObj := Spread(next);
      DescendDelete(stack, cur, parts, i);
      stack := stack + [cur];
      cur := nextObj;
      i := i + 1;
    }
    assert parts[i..] == [parts[|parts| - 1]];
    cur := cur - {parts[|parts| - 1]};
    out := PlugBack(stack, parts[..i], cur);
  }

  // ---- Properties ----------------------------------------------------------

  /** A spread copy answers every step of the walk as the original does. */
  lemma SpreadChild(v: Value, k: string)
    ensures Child(Js, M(Spread(v)), k) == Child(Js, v, k)
  {
    if v.L? {
      IndexEntriesAt(v.items, k);
    }
  }

  /** A spread copy is walked as the original is, along any path. */
  lemma SpreadResolve(v: Value, q: seq<string>)
    requires q != []
    ensures Resolve(Js, M(Spread(v)), q) == Resolve(Js, v, q)
  {
    SpreadChild(v, q[0]);
  }

  /** Reading back a path just set gives the value set. */
  lemma {:induction false} GetAfterSet(v: Value, parts: seq<string>, value: Value)
    requires |parts| >= 1
    ensures Resolve(Js, M(SetIn(v, parts, value)), parts) == Some(value)
    decreases |parts|
  {
    if |parts| > 1 {
      GetAfterSet(Get(Spread(v), parts[0]), parts[1..], value);
    } else {
      assert parts[1..] == [];
    }
  }

  /** A path that leaves the edited path before its end reads as before. */
  lemma {:induction false} SetKeepsOthers(v: Value, parts: seq<string>, value: Value, q: seq<string>, d: nat)
    requires d < |parts| && d < |q| && q[..d] == parts[..d] && q[d] != parts[d]
    ensures Resolve(Js, M(SetIn(v, parts, value)), q) == Resolve(Js, v, q)
    decreases d
  {
    var m := Spread(v);
    SpreadChild(v, q[0]);
    if d > 0 {
      assert q[0] == q[..d][0] == parts[..d][0] == parts[0];
      assert q[1..][..d - 1] == q[..d][1..] && parts[1..][..d - 1] == parts[..d][1..];
      SetKeepsOthers(Get(m, parts[0]), parts[1..], value, q[1..], d - 1);
    }
  }

  /** After deleting a path, the walk along it finds nothing. */
  lemma {:induction false} GetAfterDelete(v: Value, parts: seq<string>)
    requires |parts| >= 1
    ensures Resolve(Js, M(DeleteIn(v, parts)), parts) == None
    decreases |parts|
  {
    var m := Spread(v);
    if |parts| > 1 {
      var next := Get(m, parts[0]);
      if IsObject(next) {
        GetAfterDelete(next, parts[1..]);
      } else {
        SpreadChild(v, parts[0]);
        assert Child(Js, next, parts[1]) == None;
      }
    }
  }

  /** A path that leaves the deleted path before its end reads as before. */
  lemma {:induction false} DeleteKeepsOthers(v: Value, parts: seq<string>, q: seq<string>, d: nat)
    requires d < |parts| && d < |q| && q[..d] == parts[..d] && q[d] != parts[d]
    ensures Resolve(Js, M(DeleteIn(v, parts)), q) == Resolve(Js, v, q)
    decreases d
  {
    var m := Spread(v);
    SpreadChild(v, q[0]);
    if d > 0 {
      assert q[0] == q[..d][0] == parts[..d][0] == parts[0];
      var next := Get(m, parts[0]);
      if IsObject(next) {
        assert q[1..][..d - 1] == q[..d][1..] && parts[1..][..d - 1] == parts[..d][1..];
        DeleteKeepsOthers(next, parts[1..], q[1..], d - 1);
      }
    }
  }

  /** Setting the same path to the same value twice is setting it once. */
  lemma {:induction false} SetIdempotent(v: Value, parts: seq<string>, value: Value)
    requires |parts| >= 1
    ensures SetIn(M(SetIn(v, parts, value)), parts, value) == SetIn(v, parts, value)
    decreases |parts|
  {
    if |parts| > 1 {
      SetIdempotent(Get(Spread(v), parts[0]), parts[1..], value);
    }
  }

  /** Deleting the same path twice is deleting it once. */
  lemma {:induction false} DeleteIdempotent(v: Value, parts: seq<string>)
    requires |parts| >= 1
    ensures DeleteIn(M(DeleteIn(v, parts)), parts) == DeleteIn(v, parts)
    decreases |parts|
  {
    if |parts| > 1 {
      var next := Get(Spread(v), parts[0]);
      if IsObject(next) {
        DeleteIdempotent(next, parts[1..]);
      }
    }
  }

  /** The walk along `parts` from `v` passes only through mappings and stops
      at an intermediate value that is not an object, before the last
      segment. */
  predicate MeetsScalar(v: Value, parts: seq<string>)
    decreases |parts|
  {
    v.M? && |parts| >= 2 &&
    var next := Get(v.fields, parts[0]);
    !IsObject(next) || (next.M? && MeetsScalar(next, parts[1..]))
  }

  /** Deleting under a non-object intermediate reached through mappings is a
      copy equal to the input: nothing is removed. (A list on the way would
      come back re-spread as a mapping of its indices.) */
  lemma {:induction false} DeleteUnderScalar(v: Value, parts: seq<string>)
    requires MeetsScalar(v, parts)
    ensures DeleteIn(v, parts) == v.fields
    decreases |parts|
  {
    var next := Get(v.fields, parts[0]);
    if IsObject(next) {
      DeleteUnderScalar(next, parts[1..]);
      assert parts[0] in v.fields;
    }
  }
}
