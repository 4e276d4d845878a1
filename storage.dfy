/** System ids and the portfolio manifest (web/src/lib/storage.ts). The
    manifest is read from and written back to `portfolio.yaml` around every
    operation; here it is the state of a `Portfolio` object, and what the
    file system answers (whether a file exists, whether a delete succeeds,
    what a file holds) is passed in. */
module Storage {
  import opened Values
  import opened Text
  import opened Order

  // ---- sanitizeSystemId ------------------------------------------------------

  /** The characters an id keeps: ASCII letters, digits, `_` and `-`. */
  predicate IdChar(c: char) {
    'a' <= c <= 'z' || 'A' <= c <= 'Z' || '0' <= c <= '9' || c == '_' || c == '-'
  }

  /** `s.replace(/[^a-zA-Z0-9_-]+/g, "-")`: every maximal run of other
      characters becomes one dash; `inRun` says the character before `s` was
      such a character. */
  function ReplaceRuns(s: string, inRun: bool): string
    decreases |s|
  {
    if s == [] then []
    else if IdChar(s[0]) then [s[0]] + ReplaceRuns(s[1..], false)
    else (if inRun then [] else "-") + ReplaceRuns(s[1..], true)
  }

  /** Only id characters come out, and a string of id characters comes out
      unchanged. */
  lemma {:induction false} ReplaceRunsClean(s: string, inRun: bool)
    ensures forall i | 0 <= i < |ReplaceRuns(s, inRun)| :: IdChar(ReplaceRuns(s, inRun)[i])
    ensures (forall i | 0 <= i < |s| :: IdChar(s[i])) ==> ReplaceRuns(s, inRun) == s
    decreases |s|
  {
    if s != [] {
      ReplaceRunsClean(s[1..], !IdChar(s[0]));
      var t := ReplaceRuns(s[1..], !IdChar(s[0]));
      var r := ReplaceRuns(s, inRun);
      var h := if IdChar(s[0]) then [s[0]] else if inRun then [] else "-";
      assert r == h + t;
      forall i | 0 <= i < |r| ensures IdChar(r[i]) {
        if i >= |h| {
          assert r[i] == t[i - |h|];
        }
      }
      if forall i | 0 <= i < |s| :: IdChar(s[i]) {
        assert forall i | 0 <= i < |s[1..]| :: s[1..][i] == s[i + 1];
        assert s == [s[0]] + s[1..];
      }
    }
  }

  function DropLeadingDashes(s: string): (r: string)
    ensures |r| <= |s| && r == s[|s| - |r|..]
    ensures r != [] ==> r[0] != '-'
    decreases |s|
  {
    if s != [] && s[0] == '-' then DropLeadingDashes(s[1..]) else s
  }

  function DropTrailingDashes(s: string): (r: string)
    ensures |r| <= |s| && r == s[..|r|]
    ensures r != [] ==> r[|r| - 1] != '-'
    decreases |s|
  {
    if s != [] && s[|s| - 1] == '-' then DropTrailingDashes(s[..|s| - 1]) else s
  }

  /** `sanitizeSystemId(id)`: trim, collapse each run of other characters
      to a dash, strip the dashes at both ends, and fall back to `system`
      when nothing is left. */
  function SanitizeSystemId(id: string): string {
    var safe := DropTrailingDashes(DropLeadingDashes(ReplaceRuns(Trim(id), false)));
    if safe == [] then "system" else safe
  }

  /** An id that sanitizing leaves alone. */
  predicate SafeId(s: string) {
    s != [] && (forall i | 0 <= i < |s| :: IdChar(s[i])) && s[0] != '-' && s[|s| - 1] != '-'
  }

  /** Every character of a suffix is a character of the whole. */
  lemma SuffixIdChars(s: string, r: string)
    requires |r| <= |s| && r == s[|s| - |r|..]
    requires forall i | 0 <= i < |s| :: IdChar(s[i])
    ensures forall i | 0 <= i < |r| :: IdChar(r[i])
  {
    forall i | 0 <= i < |r| ensures IdChar(r[i]) {
      assert r[i] == s[|s| - |r| + i];
    }
  }

  /** Every character of a prefix is a character of the whole. */
  lemma PrefixIdChars(s: string, r: string)
    requires |r| <= |s| && r == s[..|r|]
    requires forall i | 0 <= i < |s| :: IdChar(s[i])
    ensures forall i | 0 <= i < |r| :: IdChar(r[i])
  {
    forall i | 0 <= i < |r| ensures IdChar(r[i]) {
      assert r[i] == s[i];
    }
  }

  /** The result is always a safe id. */
  lemma SanitizedIsSafe(id: string)
    ensures SafeId(SanitizeSystemId(id))
  {
    var r := ReplaceRuns(Trim(id), false);
    ReplaceRunsClean(Trim(id), false);
    var a := DropLeadingDashes(r);
    var b := DropTrailingDashes(a);
    SuffixIdChars(r, a);
    PrefixIdChars(a, b);
    if b != [] {
      assert b[0] == a[0];
      assert SanitizeSystemId(id) == b;
    } else {
      assert SanitizeSystemId(id) == "system";
      FallbackIsSafe("system");
    }
  }

  lemma FallbackIsSafe(s: string)
    requires s == "system"
    ensures SafeId(s)
  {
  }

  /** A safe id comes through sanitizing unchanged. */
  lemma SafeIsClean(id: string)
    requires SafeId(id)
    ensures SanitizeSystemId(id) == id
  {
    assert !IsJsSpace(id[0]) && !IsJsSpace(id[|id| - 1]);
    ReplaceRunsClean(id, false);
    assert ReplaceRuns(id, false) == id;
    SanitizeClean(id, id);
  }

  /** Sanitizing changes an id exactly when it is not already safe. */
  lemma SanitizeFixesExactlySafe(id: string)
    ensures SanitizeSystemId(id) == id <==> SafeId(id)
  {
    if SafeId(id) {
      SafeIsClean(id);
    } else {
      SanitizedIsSafe(id);
    }
  }

  /** Sanitizing twice is sanitizing once. */
  lemma SanitizeIdempotent(id: string)
    ensures SanitizeSystemId(SanitizeSystemId(id)) == SanitizeSystemId(id)
  {
    SanitizedIsSafe(id);
    SanitizeFixesExactlySafe(SanitizeSystemId(id));
  }

  /** A blank or all-punctuation id becomes `system`. */
  lemma SanitizeBlank(id: string)
    requires forall i | 0 <= i < |id| :: !IdChar(id[i]) || id[i] == '-'
    ensures SanitizeSystemId(id) == "system"
  {
    var t := Trim(id);
    assert forall i | 0 <= i < |t| :: !IdChar(t[i]) || t[i] == '-' by {
      var s := TrimStart(id);
      assert forall i | 0 <= i < |s| :: s[i] == id[|id| - |s| + i];
      assert forall i | 0 <= i < |t| :: t[i] == s[i];
    }
    AllDashes(t, false);
    DashesDrop(ReplaceRuns(t, false));
  }

  /** An id whose ends are not white space and whose collapsed form has no
      dash at either end sanitizes to that collapsed form. */
  lemma SanitizeClean(id: string, r: string)
    requires id != [] && !IsJsSpace(id[0]) && !IsJsSpace(id[|id| - 1])
    requires ReplaceRuns(id, false) == r && r != [] && r[0] != '-' && r[|r| - 1] != '-'
    ensures SanitizeSystemId(id) == r
  {
    TrimUnchanged(id);
    assert DropLeadingDashes(r) == r;
    assert DropTrailingDashes(r) == r;
  }

  /** Whether the character before what follows `x` is one the id does
      not keep. */
  function RunEnd(x: string, inRun: bool): bool {
    if x == [] then inRun else !IdChar(x[|x| - 1])
  }

  /** Replacing runs works piece by piece: the second piece continues the
      run the first one ends in. */
  lemma {:induction false} ReplaceRunsConcat(x: string, y: string, inRun: bool)
    ensures ReplaceRuns(x + y, inRun) == ReplaceRuns(x, inRun) + ReplaceRuns(y, RunEnd(x, inRun))
    decreases |x|
  {
    if x == [] {
      assert x + y == y;
    } else {
      var c, t := x[0], x[1..];
      assert x == [c] + t && x + y == [c] + (t + y);
      var r := !IdChar(c);
      var h := if IdChar(c) then [c] else if inRun then [] else "-";
      var a, b := ReplaceRuns(t, r), ReplaceRuns(y, RunEnd(x, inRun));
      ReplaceRunsCons(c, t, inRun);
      ReplaceRunsCons(c, t + y, inRun);
      ReplaceRunsConcat(t, y, r);
      RunEndTail(x, inRun);
      calc {
        ReplaceRuns(x + y, inRun);
        ReplaceRuns([c] + (t + y), inRun);
        h + ReplaceRuns(t + y, r);
        h + (a + b);
        { ConcatAssoc(h, a, b); }
        (h + a) + b;
        ReplaceRuns(x, inRun) + b;
      }
    }
  }

  lemma RunEndTail(x: string, inRun: bool)
    requires x != []
    ensures RunEnd(x[1..], !IdChar(x[0])) == RunEnd(x, inRun)
  {
    if |x| > 1 {
      assert x[1..][|x| - 2] == x[|x| - 1];
    }
  }

  /** One step of the replacement. */
  lemma ReplaceRunsCons(c: char, t: string, inRun: bool)
    ensures ReplaceRuns([c] + t, inRun) == (if IdChar(c) then [c] else if inRun then [] else "-") + ReplaceRuns(t, !IdChar(c))
  {
    var s := [c] + t;
    assert s[0] == c && s[1..] == t;
  }

  /** A run of other characters gives one dash, or none when it continues a
      run. */
  lemma {:induction false} RunToDash(run: string, inRun: bool)
    requires run != [] && forall i | 0 <= i < |run| :: !IdChar(run[i])
    ensures ReplaceRuns(run, inRun) == if inRun then [] else "-"
    ensures RunEnd(run, inRun)
    decreases |run|
  {
    if |run| > 1 {
      RunToDash(run[1..], true);
    }
  }

  /** A maximal run of other characters after a kept character becomes one
      dash (`a  b` becomes `a-b`), whatever follows it. */
  lemma RunCollapses(a: string, run: string, b: string, inRun: bool)
    requires a != [] && IdChar(a[|a| - 1])
    requires run != [] && forall i | 0 <= i < |run| :: !IdChar(run[i])
    ensures ReplaceRuns(a + run + b, inRun) == ReplaceRuns(a, inRun) + "-" + ReplaceRuns(b, true)
  {
    ReplaceRunsConcat(a + run, b, inRun);
    ReplaceRunsConcat(a, run, inRun);
    RunToDash(run, false);
    assert RunEnd(a + run, inRun) == RunEnd(run, false);
  }

  /** A dash of the id itself is kept beside the dash of a run before it
      (`a -b` becomes `a--b`). */
  lemma DashBesideRunKept(a: string, run: string, b: string, inRun: bool)
    requires a != [] && IdChar(a[|a| - 1])
    requires run != [] && forall i | 0 <= i < |run| :: !IdChar(run[i])
    ensures ReplaceRuns(a + run + "-" + b, inRun) == ReplaceRuns(a, inRun) + "--" + ReplaceRuns(b, false)
  {
    RunCollapses(a, run, "-" + b, inRun);
    assert a + run + "-" + b == a + run + ("-" + b);
    assert ReplaceRuns("-" + b, true) == "-" + ReplaceRuns(b, false) by {
      assert ("-" + b)[0] == '-' && ("-" + b)[1..] == b;
    }
  }

  lemma {:induction false} AllDashes(s: string, inRun: bool)
    requires forall i | 0 <= i < |s| :: !IdChar(s[i]) || s[i] == '-'
    ensures forall i | 0 <= i < |ReplaceRuns(s, inRun)| :: ReplaceRuns(s, inRun)[i] == '-'
    decreases |s|
  {
    if s != [] {
      AllDashes(s[1..], !IdChar(s[0]));
    }
  }

  lemma {:induction false} DashesDrop(s: string)
    requires forall i | 0 <= i < |s| :: s[i] == '-'
    ensures DropLeadingDashes(s) == []
    decreases |s|
  {
    if s != [] {
      DashesDrop(s[1..]);
    }
  }

  // ---- The portfolio manifest -------------------------------------------------

  /** One `systems` entry of `portfolio.yaml`. */
  datatype Entry = Entry(name: string, path: string)

  /** `systems.find((s) => s.name === id)` finds something. */
  predicate HasName(systems: seq<Entry>, id: string) {
    exists i | 0 <= i < |systems| :: systems[i].name == id
  }

  /** `systems.filter((s) => s.name !== id)`. */
  function Without(systems: seq<Entry>, id: string): seq<Entry>
    decreases |systems|
  {
    if systems == [] then []
    else
      var n := |systems| - 1;
      Without(systems[..n], id) + (if systems[n].name != id then [systems[n]] else [])
  }

  function NamesOf(systems: seq<Entry>): (names: seq<string>)
    ensures |names| == |systems| && forall i | 0 <= i < |systems| :: names[i] == systems[i].name
  {
    seq(|systems|, i requires 0 <= i < |systems| => systems[i].name)
  }

  /** No two entries share a name. */
  predicate UniqueNames(systems: seq<Entry>) {
    forall i, j | 0 <= i < j < |systems| :: systems[i].name != systems[j].name
  }

  /** `./systems/<id>.yaml`, the path of a new system by default. */
  function DefaultPath(safe: string): string {
    "./systems/" + safe + ".yaml"
  }

  /** `systemPath || defaultPath`: an absent or empty path means the default. */
  function TargetPath(safe: string, systemPath: Option<string>): string {
    if systemPath.Some? && systemPath.value != "" then systemPath.value else DefaultPath(safe)
  }

  /** The manifest after `createSystem`: when the facts file could be read,
      the entry is added unless the name is listed; otherwise a fresh facts
      file is written and the entry added regardless. */
  function AfterCreate(systems: seq<Entry>, safe: string, target: string, readable: bool): seq<Entry> {
    if readable && HasName(systems, safe) then systems else systems + [Entry(safe, target)]
  }

  /** The facts a new system file starts with. */
  function NewSystemFacts(): Value {
    M(map["scope" := S("system"), "description" := S(""), "base" := M(map[])])
  }

  datatype Created = Created(id: string, factsPath: string, facts: Value)

  datatype AddResult = Added(id: string, facts: Value) | InvalidFile | AlreadyListed(id: string)

  class Portfolio {
    var systems: seq<Entry>

    constructor (systems: seq<Entry>)
      ensures this.systems == systems
    {
      this.systems := systems;
    }

    /** `listSystems()`: the names, sorted. */
    method ListSystems() returns (names: seq<string>)
      ensures Sorted(names)
      ensures multiset(names) == multiset(NamesOf(systems))
    {
      names := Sort(NamesOf(systems));
    }

    /** `createSystem(id, systemPath)`. `existing` is what the facts file at
        the target path holds when it exists and can be read, and absent
        otherwise; the returned path is the target as given, before it is
        resolved against the repository root. */
    method CreateSystem(id: string, systemPath: Option<string>, existing: Option<Value>) returns (r: Created)
      modifies this
      ensures var safe := SanitizeSystemId(id);
        systems == AfterCreate(old(systems), safe, TargetPath(safe, systemPath), existing.Some?)
        && r.id == safe && r.factsPath == TargetPath(safe, systemPath)
        && r.facts == (if existing.Some? then existing.value else NewSystemFacts())
    {
      var safe := SanitizeSystemId(id);
      var targetPath := TargetPath(safe, systemPath);
      if existing.Some? {
        if !HasName(systems, safe) {
          systems := systems + [Entry(safe, targetPath)];
        }
        return Created(safe, targetPath, existing.value);
      }
      systems := systems + [Entry(safe, targetPath)];
      r := Created(safe, targetPath, NewSystemFacts());
    }

    /** `deleteSystem(id)`: `unlinked` says whether removing the facts file
        succeeded; only then is the entry dropped. */
    method DeleteSystem(id: string, unlinked: bool) returns (ok: bool)
      modifies this
      ensures ok <==> HasName(old(systems), id) && unlinked
      ensures systems == if ok then Without(old(systems), id) else old(systems)
    {
      if !HasName(systems, id) {
        return false;
      }
      if !unlinked {
        return false;
      }
      systems := Without(systems, id);
      ok := true;
    }

    /** `addExistingSystem(systemPath)`: `facts` is what the file holds and
        `fileName` its base name without the extension. */
    method AddExistingSystem(systemPath: string, fileName: string, facts: Value) returns (r: AddResult)
      modifies this
      ensures !(facts.M? || facts.L?) ==> r == InvalidFile && systems == old(systems)
      ensures (facts.M? || facts.L?) && HasName(old(systems), SanitizeSystemId(fileName)) ==>
        r == AlreadyListed(SanitizeSystemId(fileName)) && systems == old(systems)
      ensures (facts.M? || facts.L?) && !HasName(old(systems), SanitizeSystemId(fileName)) ==>
        r == Added(SanitizeSystemId(fileName), facts)
        && systems == old(systems) + [Entry(SanitizeSystemId(fileName), systemPath)]
    {
      if !(facts.M? || facts.L?) {
        return InvalidFile;
      }
      var id := SanitizeSystemId(fileName);
      if HasName(systems, id) {
        return AlreadyListed(id);
      }
      systems := systems + [Entry(id, systemPath)];
      r := Added(id, facts);
    }

    /** `removeFromPortfolio(id)`: drop the entries, keep the file. */
    method RemoveFromPortfolio(id: string) returns (ok: bool)
      modifies this
      ensures ok == HasName(old(systems), id)
      ensures systems == Without(old(systems), id)
    {
      if !HasName(systems, id) {
        WithoutAbsent(systems, id);
        return false;
      }
      systems := Without(systems, id);
      ok := true;
    }
  }

  // ---- Properties of the manifest ---------------------------------------------

  /** Filtering keeps exactly the entries under other names. */
  lemma {:induction false} WithoutMembers(systems: seq<Entry>, id: string, e: Entry)
    ensures e in Without(systems, id) <==> e in systems && e.name != id
    ensures |Without(systems, id)| <= |systems|
    decreases |systems|
  {
    if systems != [] {
      var n := |systems| - 1;
      WithoutMembers(systems[..n], id, e);
      assert systems == systems[..n] + [systems[n]];
    }
  }

  /** After filtering, the name is gone. */
  lemma WithoutRemovesName(systems: seq<Entry>, id: string)
    ensures !HasName(Without(systems, id), id)
  {
    var w := Without(systems, id);
    forall i | 0 <= i < |w| ensures w[i].name != id {
      WithoutMembers(systems, id, w[i]);
    }
  }

  /** Filtering out a name that is not listed changes nothing. */
  lemma {:induction false} WithoutAbsent(systems: seq<Entry>, id: string)
    requires !HasName(systems, id)
    ensures Without(systems, id) == systems
    decreases |systems|
  {
    if systems != [] {
      var n := |systems| - 1;
      assert !HasName(systems[..n], id) by {
        forall i | 0 <= i < n ensures systems[..n][i].name != id {
          assert systems[..n][i] == systems[i];
        }
      }
      WithoutAbsent(systems[..n], id);
      assert systems[n].name != id;
      assert systems == systems[..n] + [systems[n]];
    }
  }

  /** Filtering keeps the names unique. */
  lemma {:induction false} WithoutKeepsUnique(systems: seq<Entry>, id: string)
    requires UniqueNames(systems)
    ensures UniqueNames(Without(systems, id))
    decreases |systems|
  {
    if systems != [] {
      var n := |systems| - 1;
      var front := systems[..n];
      assert UniqueNames(front);
      WithoutKeepsUnique(front, id);
      var w := Without(front, id);
      if systems[n].name != id {
        forall i | 0 <= i < |w| ensures w[i].name != systems[n].name {
          WithoutMembers(front, id, w[i]);
          var k :| 0 <= k < n && front[k] == w[i];
        }
      }
    }
  }

  /** Appending an entry under a name not yet listed keeps names unique. */
  lemma AppendNewKeepsUnique(systems: seq<Entry>, e: Entry)
    requires UniqueNames(systems) && !HasName(systems, e.name)
    ensures UniqueNames(systems + [e])
  {
  }

  /** Creating a system whose facts file could be read keeps names unique. */
  lemma CreateReadableKeepsUnique(systems: seq<Entry>, safe: string, target: string)
    requires UniqueNames(systems)
    ensures UniqueNames(AfterCreate(systems, safe, target, true))
  {
    if !HasName(systems, safe) {
      AppendNewKeepsUnique(systems, Entry(safe, target));
    }
  }

  /** Creating a listed system whose facts file is missing lists it twice. */
  lemma CreateMissingFileDuplicates(systems: seq<Entry>, safe: string, target: string)
    requires HasName(systems, safe)
    ensures !UniqueNames(AfterCreate(systems, safe, target, false))
    ensures |AfterCreate(systems, safe, target, false)| == |systems| + 1
  {
    var i :| 0 <= i < |systems| && systems[i].name == safe;
    var after := AfterCreate(systems, safe, target, false);
    assert after[i].name == after[|systems|].name;
  }

  /** After a successful delete, listing no longer shows the system. */
  lemma DeletedNotListed(systems: seq<Entry>, id: string)
    ensures id !in Sort(NamesOf(Without(systems, id)))
  {
    var w := Without(systems, id);
    WithoutRemovesName(systems, id);
    var names := NamesOf(w);
    assert forall k | 0 <= k < |names| :: names[k] == w[k].name;
    assert id !in names;
    assert id !in multiset(Sort(names));
  }
}
