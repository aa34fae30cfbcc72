/**
 * The part of a TypeScript source file that the import manager looks at:
 * its top-level statements, of which only import declarations matter.
 * Module specifiers are plain strings (the source asserts they are string
 * literals).
 */
module ImportDirectives {
  import opened Wrappers

  /**
   * One element of `import {a, b as c} from "m"`. `name` is the local
   * binding; `propertyName` is the exported name when the element is
   * renamed (`b as c` has propertyName `b` and name `c`).
   */
  datatype ImportSpecifier = ImportSpecifier(propertyName: Option<string>, name: string)

  /** What an import clause binds besides a default import. */
  datatype NamedBindings =
    | NamedImports(elements: seq<ImportSpecifier>)   // import {a, b as c} from "m"
    | NamespaceImport(name: string)                  // import * as ns from "m"

  /** `import d, {...} from "m"`: the default name and the named bindings, each optional. */
  datatype ImportClause = ImportClause(defaultName: Option<string>, namedBindings: Option<NamedBindings>)

  /**
   * A top-level statement. An import declaration without a clause is a
   * side-effect import (`import "m"`); every non-import statement is
   * `OtherStatement`.
   */
  datatype Statement =
    | ImportDeclaration(importClause: Option<ImportClause>, moduleSpecifier: string)
    | OtherStatement

  /** A named binding found by the scanner: `{name, as, from}`. */
  datatype NamedImportRecord = NamedImportRecord(name: string, alias: Option<string>, from: string) {
    /** The identifier the binding introduces: `as ?? name`. */
    function EffectiveName(): string { alias.GetOr(name) }
  }

  /** A namespace binding found by the scanner: `{as, from}`. */
  datatype NamespaceImportRecord = NamespaceImportRecord(alias: string, from: string)

  /** The record the named scanner emits for one specifier. */
  function SpecifierRecord(spec: ImportSpecifier, from: string): (r: NamedImportRecord)
    ensures r.from == from && r.EffectiveName() == spec.name
    ensures r.name == spec.propertyName.GetOr(spec.name)
  {
    match spec.propertyName
    case Some(p) => NamedImportRecord(p, Some(spec.name), from)
    case None => NamedImportRecord(spec.name, None, from)
  }

  /** `import {...} from "m"`, possibly with a default import before the braces. */
  predicate IsNamedImports(s: Statement)
  {
    && s.ImportDeclaration? && s.importClause.Some?
    && s.importClause.value.namedBindings.Some?
    && s.importClause.value.namedBindings.value.NamedImports?
  }

  /** `import * as ns from "m"`, possibly with a default import before it. */
  predicate IsNamespaceImport(s: Statement)
  {
    && s.ImportDeclaration? && s.importClause.Some?
    && s.importClause.value.namedBindings.Some?
    && s.importClause.value.namedBindings.value.NamespaceImport?
  }

  /** The named-import records one statement contributes, in specifier order. */
  function StatementNamedImports(s: Statement): (r: seq<NamedImportRecord>)
  {
    match s
    case ImportDeclaration(Some(ImportClause(_, Some(NamedImports(elements)))), from) =>
      seq(|elements|, k requires 0 <= k < |elements| => SpecifierRecord(elements[k], from))
    case _ => []
  }

  /** The namespace records one statement contributes: one for `* as`, none otherwise. */
  function StatementNamespaceImports(s: Statement): (r: seq<NamespaceImportRecord>)
  {
    match s
    case ImportDeclaration(Some(ImportClause(_, Some(NamespaceImport(alias)))), from) =>
      [NamespaceImportRecord(alias, from)]
    case _ => []
  }

  /**
   * One named record per specifier of an `import {...}`, in order, each from
   * the statement's module, binding the specifier's local name to its
   * exported name; no record from any other statement.
   */
  lemma StatementNamedImportsSpec(s: Statement)
    ensures !IsNamedImports(s) ==> StatementNamedImports(s) == []
    ensures IsNamedImports(s) ==>
      var r, elements := StatementNamedImports(s), s.importClause.value.namedBindings.value.elements;
      && |r| == |elements|
      && forall k :: 0 <= k < |r| ==>
           && r[k].from == s.moduleSpecifier
           && r[k].EffectiveName() == elements[k].name
           && r[k].name == elements[k].propertyName.GetOr(elements[k].name)
  {
  }

  /**
   * At most one namespace record per statement: exactly one, for `* as`,
   * carrying the statement's alias and module.
   */
  lemma StatementNamespaceImportsSpec(s: Statement)
    ensures |StatementNamespaceImports(s)| <= 1
    ensures |StatementNamespaceImports(s)| == 1 <==> IsNamespaceImport(s)
    ensures |StatementNamespaceImports(s)| == 1 ==>
      StatementNamespaceImports(s)[0].alias == s.importClause.value.namedBindings.value.name &&
      StatementNamespaceImports(s)[0].from == s.moduleSpecifier
  {
  }

  /**
   * `import {name} from "from"`, or `import {name as alias} from "from"`
   * when an alias is given. As in the source, an empty alias is falsy and
   * gives the unaliased form.
   */
  function CreateNamedImport(name: string, from: string, alias: Option<string>): (r: Statement)
    ensures StatementNamedImports(r) ==
      [NamedImportRecord(name, if alias.Some? && alias.value != "" then alias else None, from)]
    ensures StatementNamespaceImports(r) == []
  {
    if alias.Some? && alias.value != "" then
      ImportDeclaration(Some(ImportClause(None, Some(NamedImports([ImportSpecifier(Some(name), alias.value)])))), from)
    else
      ImportDeclaration(Some(ImportClause(None, Some(NamedImports([ImportSpecifier(None, name)])))), from)
  }

  /** `import * as alias from "from"`. */
  function CreateNamespaceImport(alias: string, from: string): (r: Statement)
    ensures StatementNamespaceImports(r) == [NamespaceImportRecord(alias, from)]
    ensures StatementNamedImports(r) == []
  {
    ImportDeclaration(Some(ImportClause(None, Some(NamespaceImport(alias)))), from)
  }
}
