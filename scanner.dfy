/**
 * The directive scanners: one pass over a file's statements that collects
 * the named and the namespace import bindings already present.
 */
module ImportScanner {
  import opened Wrappers
  import opened ImportDirectives

  /** Every named-import record of the statement list, statement by statement. */
  function NamedImportsOf(statements: seq<Statement>): seq<NamedImportRecord>
  {
    if |statements| == 0 then []
    else StatementNamedImports(statements[0]) + NamedImportsOf(statements[1..])
  }

  /** Every namespace-import record of the statement list, statement by statement. */
  function NamespaceImportsOf(statements: seq<Statement>): seq<NamespaceImportRecord>
  {
    if |statements| == 0 then []
    else StatementNamespaceImports(statements[0]) + NamespaceImportsOf(statements[1..])
  }

  /** The named records of two consecutive statement runs are those of each run, in order. */
  lemma {:induction false} NamedImportsOfConcat(a: seq<Statement>, b: seq<Statement>)
    ensures NamedImportsOf(a + b) == NamedImportsOf(a) + NamedImportsOf(b)
  {
    if |a| > 0 {
      assert (a + b)[1..] == a[1..] + b;
      NamedImportsOfConcat(a[1..], b);
    } else {
      assert a + b == b;
    }
  }

  /** The namespace records of two consecutive statement runs are those of each run, in order. */
  lemma {:induction false} NamespaceImportsOfConcat(a: seq<Statement>, b: seq<Statement>)
    ensures NamespaceImportsOf(a + b) == NamespaceImportsOf(a) + NamespaceImportsOf(b)
  {
    if |a| > 0 {
      assert (a + b)[1..] == a[1..] + b;
      NamespaceImportsOfConcat(a[1..], b);
    } else {
      assert a + b == b;
    }
  }

  /**
   * A record is found exactly when some statement contributes it: the scan
   * invents nothing and misses nothing.
   */
  lemma {:induction false} NamedImportsOfMembership(statements: seq<Statement>, rec: NamedImportRecord)
    ensures rec in NamedImportsOf(statements) <==>
            exists k :: 0 <= k < |statements| && rec in StatementNamedImports(statements[k])
  {
    if |statements| > 0 {
      NamedImportsOfMembership(statements[1..], rec);
      if rec in NamedImportsOf(statements[1..]) {
        var k :| 0 <= k < |statements[1..]| && rec in StatementNamedImports(statements[1..][k]);
        assert statements[1..][k] == statements[k + 1];
      }
      if exists k :: 0 <= k < |statements| && rec in StatementNamedImports(statements[k]) {
        var k :| 0 <= k < |statements| && rec in StatementNamedImports(statements[k]);
        if k > 0 { assert statements[k] == statements[1..][k - 1]; }
      }
    }
  }

  /** The named records of a prefix grow by those of the next statement. */
  lemma NamedImportsOfPrefix(statements: seq<Statement>, i: nat)
    requires i < |statements|
    ensures NamedImportsOf(statements[..i + 1]) == NamedImportsOf(statements[..i]) + StatementNamedImports(statements[i])
  {
    NamedImportsOfConcat(statements[..i], [statements[i]]);
    assert statements[..i + 1] == statements[..i] + [statements[i]];
  }

  /** The namespace records of a prefix grow by those of the next statement. */
  lemma NamespaceImportsOfPrefix(statements: seq<Statement>, i: nat)
    requires i < |statements|
    ensures NamespaceImportsOf(statements[..i + 1]) ==
            NamespaceImportsOf(statements[..i]) + StatementNamespaceImports(statements[i])
  {
    NamespaceImportsOfConcat(statements[..i], [statements[i]]);
    assert statements[..i + 1] == statements[..i] + [statements[i]];
  }

  /** The records of the first `j` specifiers. */
  function SpecifierRecords(elements: seq<ImportSpecifier>, from: string, j: nat): (r: seq<NamedImportRecord>)
    requires j <= |elements|
  {
    seq(j, k requires 0 <= k < j => SpecifierRecord(elements[k], from))
  }

  /**
   * `findNamedImports`: one record per specifier of every import declaration
   * whose clause has named bindings, in statement and specifier order.
   */
  method FindNamedImports(sourceFile: seq<Statement>) returns (r: seq<NamedImportRecord>)
    ensures r == NamedImportsOf(sourceFile)
  {
    r := [];
    for i := 0 to |sourceFile|
      invariant r == NamedImportsOf(sourceFile[..i])
    {
      NamedImportsOfPrefix(sourceFile, i);
      var s := sourceFile[i];
      if s.ImportDeclaration? && s.importClause.Some? {
        var namedBindings := s.importClause.value.namedBindings;
        if namedBindings.Some? && namedBindings.value.NamedImports? {
          ghost var before := r;
          var elements := namedBindings.value.elements;
          for j := 0 to |elements|
            invariant r == before + SpecifierRecords(elements, s.moduleSpecifier, j)
          {
            var importSpecifier := elements[j];
            if importSpecifier.propertyName.Some? {
              r := r + [NamedImportRecord(importSpecifier.propertyName.value, Some(importSpecifier.name), s.moduleSpecifier)];
            } else {
              r := r + [NamedImportRecord(importSpecifier.name, None, s.moduleSpecifier)];
            }
            assert SpecifierRecords(elements, s.moduleSpecifier, j + 1) ==
                   SpecifierRecords(elements, s.moduleSpecifier, j) + [SpecifierRecord(elements[j], s.moduleSpecifier)];
          }
          assert SpecifierRecords(elements, s.moduleSpecifier, |elements|) == StatementNamedImports(s);
        }
      }
    }
    assert sourceFile[..|sourceFile|] == sourceFile;
  }

  /** `findNamespaceImports`: one record per `import * as` declaration, in statement order. */
  method FindNamespaceImports(sourceFile: seq<Statement>) returns (r: seq<NamespaceImportRecord>)
    ensures r == NamespaceImportsOf(sourceFile)
  {
    r := [];
    for i := 0 to |sourceFile|
      invariant r == NamespaceImportsOf(sourceFile[..i])
    {
      NamespaceImportsOfPrefix(sourceFile, i);
      var s := sourceFile[i];
      if s.ImportDeclaration? && s.importClause.Some? {
        var namedBindings := s.importClause.value.namedBindings;
        if namedBindings.Some? && namedBindings.value.NamespaceImport? {
          r := r + [NamespaceImportRecord(namedBindings.value.name, s.moduleSpecifier)];
        }
      }
    }
    assert sourceFile[..|sourceFile|] == sourceFile;
  }
}
