/**
 * The two directive policies: `ensureNamedImportPresent` (reuse, else
 * insert under the first free local name) and
 * `ensureNamespaceImportPresent` (reuse on an exact match, else insert
 * with no collision check).
 *
 * The source hands each policy a callback that adds the new statement;
 * here a policy returns the statement it would add (`added`), and the
 * caller adds it. `AddedAtTop` is what the import manager's callback does.
 */
module ImportPolicy {
  import opened Wrappers
  import opened ImportDirectives
  import opened ImportScanner
  import opened AliasCandidates

  /** The escape character the source uses by default. */
  const DefaultEscapeCharacter: char := '$'

  /** A policy's answer: the local identifier to use and the statement to add, if any. */
  datatype Outcome = Outcome(localName: string, added: Option<Statement>)

  /** The statement list after the caller adds `added` at the top of the file. */
  function AddedAtTop(statements: seq<Statement>, added: Option<Statement>): (r: seq<Statement>)
    ensures |r| == |statements| + (if added.Some? then 1 else 0)
    ensures r[|r| - |statements|..] == statements
    ensures added.Some? ==> r[0] == added.value
  {
    match added
    case None => statements
    case Some(s) => [s] + statements
  }

  /** `taken`: the effective local name of every named record, then the blacklisted names. */
  function TakenNames(records: seq<NamedImportRecord>, blacklistedNames: seq<string>): (r: seq<string>)
    ensures forall x :: x in r <==>
      x in blacklistedNames || exists i :: 0 <= i < |records| && records[i].EffectiveName() == x
  {
    var effective := seq(|records|, i requires 0 <= i < |records| => records[i].EffectiveName());
    assert forall x :: x in effective <==> exists i :: 0 <= i < |records| && records[i].EffectiveName() == x by {
      forall x ensures x in effective <==> exists i :: 0 <= i < |records| && records[i].EffectiveName() == x {
        if x in effective { var i :| 0 <= i < |effective| && effective[i] == x; }
        if exists i :: 0 <= i < |records| && records[i].EffectiveName() == x {
          var i :| 0 <= i < |records| && records[i].EffectiveName() == x;
          assert effective[i] == x;
        }
      }
    }
    effective + blacklistedNames
  }

  /** A named record binds `importName` from `importFrom`. */
  predicate SameNamedImport(rec: NamedImportRecord, importName: string, importFrom: string)
  {
    rec.name == importName && rec.from == importFrom
  }

  /**
   * What `ensureNamedImportPresent` decides for a file: reuse the first
   * existing binding of `(importName, importFrom)`, or bind `importName`
   * under the first free candidate, unaliased when that is `importName`.
   */
  function NamedImportOutcome(statements: seq<Statement>, importName: string, importFrom: string,
                              blacklistedNames: seq<string>, escapeCharacter: char): (r: Outcome)
    // reuse exactly when the pair is already imported, and then under the first match's local name
    ensures r.added.None? <==>
      exists i :: 0 <= i < |NamedImportsOf(statements)| &&
                  SameNamedImport(NamedImportsOf(statements)[i], importName, importFrom)
    ensures r.added.None? ==>
      exists i :: 0 <= i < |NamedImportsOf(statements)| &&
                  SameNamedImport(NamedImportsOf(statements)[i], importName, importFrom) &&
                  r.localName == NamedImportsOf(statements)[i].EffectiveName() &&
                  forall j :: 0 <= j < i ==> !SameNamedImport(NamedImportsOf(statements)[j], importName, importFrom)
    // otherwise one new directive, under a local name nobody has yet
    ensures r.added.Some? ==>
      var taken := TakenNames(NamedImportsOf(statements), blacklistedNames);
      r.localName !in taken &&
      (r.localName == importName <==> importName !in taken) &&
      exists k :: IsFirstFree(importName, escapeCharacter, taken, k) &&
                  r.localName == Candidate(importName, escapeCharacter, k)
    ensures r.added.Some? ==>
      r.added.value == CreateNamedImport(importName, importFrom,
                                         if r.localName == importName then None else Some(r.localName))
  {
    var all := NamedImportsOf(statements);
    match Find(all, rec => SameNamedImport(rec, importName, importFrom))
    case Some(m) => Outcome(m.EffectiveName(), None)
    case None =>
      var taken := TakenNames(all, blacklistedNames);
      var k := FirstFreeIndex(importName, escapeCharacter, taken);
      var alias := if k == 0 then None else Some(Candidate(importName, escapeCharacter, k));
      assert k > 0 ==> |Candidate(importName, escapeCharacter, k)| > |importName|;
      Outcome(Candidate(importName, escapeCharacter, k), Some(CreateNamedImport(importName, importFrom, alias)))
  }

  /**
   * `ensureNamedImportPresent`: scan the file, reuse a match, or search the
   * candidates `X`, `X$`, `X$2`, ... for the first one not taken.
   */
  method EnsureNamedImportPresent(currentFile: seq<Statement>, importName: string, importFrom: string,
                                  blacklistedNames: seq<string>, escapeCharacter: char := DefaultEscapeCharacter)
    returns (localName: string, added: Option<Statement>)
    ensures Outcome(localName, added) ==
            NamedImportOutcome(currentFile, importName, importFrom, blacklistedNames, escapeCharacter)
  {
    var all := FindNamedImports(currentFile);
    var taken := TakenNames(all, blacklistedNames);
    var match_ := Find(all, rec => SameNamedImport(rec, importName, importFrom));
    if match_.Some? {
      return match_.value.EffectiveName(), None;
    }
    var alias: Option<string> := None;
    if importName in taken {
      var i: nat := 0;
      var as_ := importName;
      while as_ in taken
        invariant i <= |taken|
        invariant as_ == Candidate(importName, escapeCharacter, i)
        invariant forall j :: 0 <= j < i ==> Candidate(importName, escapeCharacter, j) in taken
        decreases |taken| - i
      {
        CandidatesTakenBound(importName, escapeCharacter, taken, i + 1);
        as_ := importName + [escapeCharacter];
        var before := i;
        i := i + 1;
        if before > 0 {
          as_ := as_ + Decimal(i);
        }
      }
      FirstFreeUnique(importName, escapeCharacter, taken, i, FirstFreeIndex(importName, escapeCharacter, taken));
      alias := Some(as_);
    }
    added := Some(CreateNamedImport(importName, importFrom, alias));
    localName := alias.GetOr(importName);
  }

  /** A namespace record is exactly `* as asName from importFrom`. */
  predicate SameNamespaceImport(rec: NamespaceImportRecord, asName: string, importFrom: string)
  {
    rec.alias == asName && rec.from == importFrom
  }

  /**
   * What `ensureNamespaceImportPresent` decides: the answer is always
   * `asName`; a directive is added unless the exact pair is present.
   */
  function NamespaceImportOutcome(statements: seq<Statement>, asName: string, importFrom: string): (r: Outcome)
    ensures r.localName == asName
    ensures r.added.None? <==> NamespaceImportRecord(asName, importFrom) in NamespaceImportsOf(statements)
    ensures r.added.Some? ==> r.added.value == CreateNamespaceImport(asName, importFrom)
  {
    match Find(NamespaceImportsOf(statements), rec => SameNamespaceImport(rec, asName, importFrom))
    case Some(m) => Outcome(m.alias, None)
    case None => Outcome(asName, Some(CreateNamespaceImport(asName, importFrom)))
  }

  /** `ensureNamespaceImportPresent`: reuse on an exact match, else add; no collision check. */
  method EnsureNamespaceImportPresent(currentFile: seq<Statement>, asName: string, importFrom: string)
    returns (localName: string, added: Option<Statement>)
    ensures Outcome(localName, added) == NamespaceImportOutcome(currentFile, asName, importFrom)
  {
    var all := FindNamespaceImports(currentFile);
    var match_ := Find(all, rec => SameNamespaceImport(rec, asName, importFrom));
    if match_.Some? {
      return match_.value.alias, None;
    }
    added := Some(CreateNamespaceImport(asName, importFrom));
    localName := asName;
  }
}

/** Properties of the two policies over sequences of calls. */
module ImportPolicyProperties {
  import opened Wrappers
  import opened ImportDirectives
  import opened ImportScanner
  import opened AliasCandidates
  import opened ImportPolicy

  /** Adding a statement at the top puts its records in front of the file's. */
  lemma NamedImportsAfterAdd(statements: seq<Statement>, s: Statement)
    ensures NamedImportsOf([s] + statements) == StatementNamedImports(s) + NamedImportsOf(statements)
    ensures NamespaceImportsOf([s] + statements) == StatementNamespaceImports(s) + NamespaceImportsOf(statements)
  {
    assert ([s] + statements)[1..] == statements;
  }

  /**
   * Idempotence: once `(importName, importFrom)` has been ensured, ensuring
   * it again (whatever the blacklist is then) returns the same identifier
   * and adds nothing.
   */
  lemma NamedImportIdempotent(statements: seq<Statement>, importName: string, importFrom: string,
                              blacklistedNames: seq<string>, laterBlacklistedNames: seq<string>,
                              escapeCharacter: char)
    ensures var first := NamedImportOutcome(statements, importName, importFrom, blacklistedNames, escapeCharacter);
            NamedImportOutcome(AddedAtTop(statements, first.added), importName, importFrom,
                               laterBlacklistedNames, escapeCharacter) == Outcome(first.localName, None)
  {
    var first := NamedImportOutcome(statements, importName, importFrom, blacklistedNames, escapeCharacter);
    var again := NamedImportOutcome(AddedAtTop(statements, first.added), importName, importFrom,
                                    laterBlacklistedNames, escapeCharacter);
    match first.added
    case None =>
    case Some(s) =>
      NamedImportsAfterAdd(statements, s);
      var taken := TakenNames(NamedImportsOf(statements), blacklistedNames);
      var k :| IsFirstFree(importName, escapeCharacter, taken, k) &&
               first.localName == Candidate(importName, escapeCharacter, k);
      assert first.localName != importName ==> first.localName != "";
      var records := NamedImportsOf([s] + statements);
      assert records[0] == NamedImportRecord(importName,
        if first.localName == importName then None else Some(first.localName), importFrom);
      assert SameNamedImport(records[0], importName, importFrom);
  }

  /** No two different `(name, from)` pairs share a local identifier. */
  ghost predicate CollisionFree(records: seq<NamedImportRecord>)
  {
    forall i, j :: 0 <= i < j < |records| && records[i].EffectiveName() == records[j].EffectiveName() ==>
      records[i].name == records[j].name && records[i].from == records[j].from
  }

  /** No `(name, from)` pair is imported twice. */
  ghost predicate PairsUnique(records: seq<NamedImportRecord>)
  {
    forall i, j :: 0 <= i < j < |records| ==> !SameNamedImport(records[j], records[i].name, records[i].from)
  }

  /**
   * The named policy keeps a file collision-free and free of duplicate
   * pairs, and a name it binds afresh is never a blacklisted name.
   */
  lemma NamedImportKeepsBindingsUnique(statements: seq<Statement>, importName: string, importFrom: string,
                                       blacklistedNames: seq<string>, escapeCharacter: char)
    ensures var o := NamedImportOutcome(statements, importName, importFrom, blacklistedNames, escapeCharacter);
            var after := NamedImportsOf(AddedAtTop(statements, o.added));
            (CollisionFree(NamedImportsOf(statements)) ==> CollisionFree(after)) &&
            (PairsUnique(NamedImportsOf(statements)) ==> PairsUnique(after)) &&
            (o.added.Some? ==> o.localName !in blacklistedNames)
  {
    var o := NamedImportOutcome(statements, importName, importFrom, blacklistedNames, escapeCharacter);
    var before := NamedImportsOf(statements);
    match o.added
    case None =>
    case Some(s) =>
      NamedImportsAfterAdd(statements, s);
      var after := NamedImportsOf([s] + statements);
      var taken := TakenNames(before, blacklistedNames);
      var k :| IsFirstFree(importName, escapeCharacter, taken, k) &&
               o.localName == Candidate(importName, escapeCharacter, k);
      assert o.localName != importName ==> o.localName != "";
      assert after[0] == NamedImportRecord(importName,
        if o.localName == importName then None else Some(o.localName), importFrom);
      assert after[0].EffectiveName() == o.localName;
      assert forall j :: 1 <= j < |after| ==> after[j] == before[j - 1];
      assert forall j :: 1 <= j < |after| ==> after[j].EffectiveName() != o.localName by {
        forall j | 1 <= j < |after| ensures after[j].EffectiveName() != o.localName {
          assert before[j - 1].EffectiveName() in taken;
        }
      }
      assert forall j :: 1 <= j < |after| ==> !SameNamedImport(after[j], importName, importFrom);
  }

  /** Ensuring a namespace import twice returns the alias both times and adds one directive. */
  lemma NamespaceImportIdempotent(statements: seq<Statement>, asName: string, importFrom: string)
    ensures var first := NamespaceImportOutcome(statements, asName, importFrom);
            NamespaceImportOutcome(AddedAtTop(statements, first.added), asName, importFrom) == Outcome(asName, None)
  {
    var first := NamespaceImportOutcome(statements, asName, importFrom);
    if first.added.Some? {
      NamedImportsAfterAdd(statements, first.added.value);
    }
  }

  /**
   * A namespace directive leaves the named records alone, so namespace
   * aliases never enter the named policy's `taken` names.
   */
  lemma NamespaceImportKeepsNamedImports(statements: seq<Statement>, asName: string, importFrom: string)
    ensures var o := NamespaceImportOutcome(statements, asName, importFrom);
            NamedImportsOf(AddedAtTop(statements, o.added)) == NamedImportsOf(statements)
  {
    var o := NamespaceImportOutcome(statements, asName, importFrom);
    if o.added.Some? {
      NamedImportsAfterAdd(statements, o.added.value);
    }
  }

  /** A named directive leaves the namespace records alone. */
  lemma NamedImportKeepsNamespaceImports(statements: seq<Statement>, importName: string, importFrom: string,
                                         blacklistedNames: seq<string>, escapeCharacter: char)
    ensures var o := NamedImportOutcome(statements, importName, importFrom, blacklistedNames, escapeCharacter);
            NamespaceImportsOf(AddedAtTop(statements, o.added)) == NamespaceImportsOf(statements)
  {
    var o := NamedImportOutcome(statements, importName, importFrom, blacklistedNames, escapeCharacter);
    if o.added.Some? {
      NamedImportsAfterAdd(statements, o.added.value);
    }
  }

  /**
   * With `X` and `X$` taken, the alias is `X$2`: the second alias skips
   * `X$1`.
   */
  lemma AliasAfterTwoCollisions(importName: string, importFrom: string)
    ensures NamedImportOutcome([], importName, importFrom, [importName, importName + "$"], '$').localName ==
            importName + "$2"
  {
    var taken := TakenNames([], [importName, importName + "$"]);
    var o := NamedImportOutcome([], importName, importFrom, [importName, importName + "$"], '$');
    var k :| IsFirstFree(importName, '$', taken, k) && o.localName == Candidate(importName, '$', k);
    assert Candidate(importName, '$', 0) in taken;
    assert Candidate(importName, '$', 1) in taken;
    assert |Candidate(importName, '$', 2)| == |importName| + 2;
    assert Candidate(importName, '$', 2) !in taken;
    assert IsFirstFree(importName, '$', taken, 2);
    FirstFreeUnique(importName, '$', taken, k, 2);
    assert Decimal(2) == "2";
  }

  /**
   * Importing `Foo` into an empty file binds it unaliased; importing `Foo`
   * from another module next binds it as `Foo$`.
   */
  lemma SameNameFromTwoModules()
    ensures var first := NamedImportOutcome([], "Foo", "./shapes", [], '$');
            first == Outcome("Foo", Some(CreateNamedImport("Foo", "./shapes", None))) &&
            var second := NamedImportOutcome(AddedAtTop([], first.added), "Foo", "./other", [], '$');
            second == Outcome("Foo$", Some(CreateNamedImport("Foo", "./other", Some("Foo$"))))
  {
    var first := NamedImportOutcome([], "Foo", "./shapes", [], '$');
    NamedImportsAfterAdd([], first.added.value);
    var s1 := AddedAtTop([], first.added);
    var records := NamedImportsOf(s1);
    assert records == [NamedImportRecord("Foo", None, "./shapes")];
    assert !SameNamedImport(records[0], "Foo", "./other");
    var taken := TakenNames(records, []);
    assert "Foo" in taken;
    assert Candidate("Foo", '$', 1) == "Foo$";
    assert "Foo$" !in taken;
    var second := NamedImportOutcome(s1, "Foo", "./other", [], '$');
    var k :| IsFirstFree("Foo", '$', taken, k) && second.localName == Candidate("Foo", '$', k);
    FirstFreeUnique("Foo", '$', taken, k, 1);
  }

  /**
   * A namespace alias is not checked against named imports: `* as Foo` is
   * added even though `Foo` is already a named import's local name.
   */
  lemma NamespaceAliasNotCheckedForCollision()
    ensures NamespaceImportOutcome([CreateNamedImport("Foo", "./a", None)], "Foo", "./b") ==
            Outcome("Foo", Some(CreateNamespaceImport("Foo", "./b")))
  {
    NamedImportsAfterAdd([], CreateNamedImport("Foo", "./a", None));
  }

  /** Namespace aliases are not taken names: `Foo` stays unaliased beside `* as Foo`. */
  lemma NamedImportIgnoresNamespaceAlias()
    ensures NamedImportOutcome([CreateNamespaceImport("Foo", "./x")], "Foo", "./y", [], '$') ==
            Outcome("Foo", Some(CreateNamedImport("Foo", "./y", None)))
  {
    NamedImportsAfterAdd([], CreateNamespaceImport("Foo", "./x"));
  }

  /** Default-import names are not taken names either: `Foo` stays unaliased beside `import Foo`. */
  lemma NamedImportIgnoresDefaultImport()
    ensures var defaultImport := ImportDeclaration(Some(ImportClause(Some("Foo"), None)), "./x");
            NamedImportOutcome([defaultImport], "Foo", "./y", [], '$') ==
            Outcome("Foo", Some(CreateNamedImport("Foo", "./y", None)))
  {
    NamedImportsAfterAdd([], ImportDeclaration(Some(ImportClause(Some("Foo"), None)), "./x"));
  }
}
