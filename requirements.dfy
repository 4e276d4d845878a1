/** Progressive disclosure: which questions an evaluation requires and which
    of them the facts leave unanswered. Python (`required_question_ids`,
    `missing_required_questions` in tools/riskctl.py) and TypeScript
    (`requiredQuestionIds` in web/src/lib/evaluator.ts, `missingFromRequired`
    in web/app/api/diff/route.ts) assemble the list the same way. */
module Requirements {
  import opened Values
  import opened FactPaths

  /** `<namespace>.<id>` for each id, in order. */
  function Qualified(ns: string, ids: seq<string>): (r: seq<string>)
    ensures |r| == |ids|
    ensures forall i | 0 <= i < |ids| :: r[i] == ns + "." + ids[i]
  {
    seq(|ids|, i requires 0 <= i < |ids| => ns + "." + ids[i])
  }

  /** The ids a list of activated domains contributes, domain by domain; a
      domain without a question document (absent from `idsOf`) adds none. */
  function DomainIds(idsOf: map<string, seq<string>>, activated: seq<string>): seq<string>
    decreases |activated|
  {
    if activated == [] then []
    else
      var d := activated[|activated| - 1];
      DomainIds(idsOf, activated[..|activated| - 1]) + (if d in idsOf then Qualified(d, idsOf[d]) else [])
  }

  /** One more activated domain appends its own qualified ids. */
  lemma DomainIdsSnoc(idsOf: map<string, seq<string>>, activated: seq<string>, i: nat)
    requires i < |activated|
    ensures DomainIds(idsOf, activated[..i + 1]) == DomainIds(idsOf, activated[..i])
      + (if activated[i] in idsOf then Qualified(activated[i], idsOf[activated[i]]) else [])
  {
    assert activated[..i + 1][..i] == activated[..i] && activated[..i + 1][i] == activated[i];
  }

  /** Every base question first, then every question of each activated domain. */
  function RequiredIds(baseIds: seq<string>, idsOf: map<string, seq<string>>, activated: seq<string>): seq<string> {
    Qualified("base", baseIds) + DomainIds(idsOf, activated)
  }

  /** Before any domain, only the base questions are required. */
  lemma RequiredIdsNone(baseIds: seq<string>, idsOf: map<string, seq<string>>, activated: seq<string>)
    ensures RequiredIds(baseIds, idsOf, activated[..0]) == Qualified("base", baseIds)
  {
    assert activated[..0] == [];
  }

  /** One more activated domain appends its qualified ids to the required list. */
  lemma RequiredIdsSnoc(baseIds: seq<string>, idsOf: map<string, seq<string>>, activated: seq<string>, i: nat)
    requires i < |activated|
    ensures RequiredIds(baseIds, idsOf, activated[..i + 1]) == RequiredIds(baseIds, idsOf, activated[..i])
      + (if activated[i] in idsOf then Qualified(activated[i], idsOf[activated[i]]) else [])
  {
    DomainIdsSnoc(idsOf, activated, i);
  }

  /** The required paths whose fact reads as null: absent or stored null. */
  function MissingOf(lang: Lang, required: seq<string>, facts: Value): seq<string>
    decreases |required|
  {
    if required == [] then []
    else
      var p := required[|required| - 1];
      MissingOf(lang, required[..|required| - 1], facts) + (if FactAt(lang, facts, p) == Null then [p] else [])
  }

  // ---- Properties ----------------------------------------------------------

  /** A path is contributed by the domains exactly when some activated domain
      with a question document declares its id. */
  lemma {:induction false} DomainIdsMembers(idsOf: map<string, seq<string>>, activated: seq<string>, p: string)
    ensures p in DomainIds(idsOf, activated) <==>
      exists j, k | 0 <= j < |activated| && activated[j] in idsOf && 0 <= k < |idsOf[activated[j]]| ::
        p == activated[j] + "." + idsOf[activated[j]][k]
    decreases |activated|
  {
    if activated != [] {
      var n := |activated| - 1;
      var d := activated[n];
      var front := activated[..n];
      DomainIdsMembers(idsOf, front, p);
      var tail := if d in idsOf then Qualified(d, idsOf[d]) else [];
      assert p in DomainIds(idsOf, activated) <==> p in DomainIds(idsOf, front) || p in tail;
      if p in tail {
        var k :| 0 <= k < |tail| && tail[k] == p;
        assert activated[n] in idsOf && p == activated[n] + "." + idsOf[activated[n]][k];
      }
      if exists j, k | 0 <= j < |activated| && activated[j] in idsOf && 0 <= k < |idsOf[activated[j]]| ::
          p == activated[j] + "." + idsOf[activated[j]][k] {
        var j, k :| 0 <= j < |activated| && activated[j] in idsOf && 0 <= k < |idsOf[activated[j]]|
          && p == activated[j] + "." + idsOf[activated[j]][k];
        if j < n {
          assert front[j] == activated[j];
        } else {
          assert tail[k] == p;
        }
      }
    }
  }

  /** The required list starts with the base questions in file order and
      holds exactly the base paths and the activated domains' paths. */
  lemma RequiredIdsMembers(baseIds: seq<string>, idsOf: map<string, seq<string>>, activated: seq<string>, p: string)
    ensures RequiredIds(baseIds, idsOf, activated)[..|baseIds|] == Qualified("base", baseIds)
    ensures p in RequiredIds(baseIds, idsOf, activated) <==>
      (exists k | 0 <= k < |baseIds| :: p == "base." + baseIds[k]) ||
      (exists j, k | 0 <= j < |activated| && activated[j] in idsOf && 0 <= k < |idsOf[activated[j]]| ::
        p == activated[j] + "." + idsOf[activated[j]][k])
  {
    var b := Qualified("base", baseIds);
    assert (b + DomainIds(idsOf, activated))[..|baseIds|] == b;
    DomainIdsMembers(idsOf, activated, p);
    if p in b {
      var k :| 0 <= k < |b| && b[k] == p;
      assert p == "base." + baseIds[k];
    }
    if exists k | 0 <= k < |baseIds| :: p == "base." + baseIds[k] {
      var k :| 0 <= k < |baseIds| && p == "base." + baseIds[k];
      assert b[k] == p;
    }
  }

  /** An activated domain without a question document changes nothing. */
  lemma DocumentlessDomain(baseIds: seq<string>, idsOf: map<string, seq<string>>, activated: seq<string>, d: string)
    requires d !in idsOf
    ensures RequiredIds(baseIds, idsOf, activated + [d]) == RequiredIds(baseIds, idsOf, activated)
  {
    assert (activated + [d])[..|activated|] == activated;
  }

  /** The missing paths are the required paths, in order, whose fact reads as
      null; in particular they form a subsequence of the required list. */
  lemma {:induction false} MissingMembers(lang: Lang, required: seq<string>, facts: Value, p: string)
    ensures p in MissingOf(lang, required, facts) <==> p in required && FactAt(lang, facts, p) == Null
    ensures |MissingOf(lang, required, facts)| <= |required|
    decreases |required|
  {
    if required != [] {
      var n := |required| - 1;
      MissingMembers(lang, required[..n], facts, p);
      assert required == required[..n] + [required[n]];
    }
  }

  /** A stored `false` answers its question. */
  lemma FalseIsAnswered(lang: Lang, required: seq<string>, facts: Value, p: string)
    requires Lookup(lang, facts, p) == Some(B(false))
    ensures p !in MissingOf(lang, required, facts)
  {
    MissingMembers(lang, required, facts, p);
  }
}
