/**
 * The `TypescriptImportManager` facade: it ties the policies to the
 * symbol table and to the source file being generated, whose statement
 * list is the only state that changes.
 */
module ImportManager {
  import opened Wrappers
  import opened ImportDirectives
  import opened ImportPolicy
  import opened ImportPolicyProperties
  import opened ImportScanner
  import RelativeImportPath

  /** A descriptor of the protobuf schema, by identity. */
  type Descriptor = string

  /** A generated output file, by identity, with its file name. */
  datatype GeneratedFile = GeneratedFile(id: nat, filename: string)

  /** One registration: the file that declares the symbol of `(descriptor, kind)` and its name. */
  datatype SymbolEntry = SymbolEntry(descriptor: Descriptor, kind: string, file: GeneratedFile, name: string)

  /** The symbol table, filled before any import is resolved and only read here. */
  datatype SymbolTable = SymbolTable(entries: seq<SymbolEntry>) {

    predicate Has(descriptor: Descriptor, kind: string) {
      exists i :: 0 <= i < |entries| && entries[i].descriptor == descriptor && entries[i].kind == kind
    }

    /** `symbols.get(descriptor, kind)`: the first registration of the pair. */
    function Get(descriptor: Descriptor, kind: string): (e: SymbolEntry)
      requires Has(descriptor, kind)
      ensures e in entries && e.descriptor == descriptor && e.kind == kind
    {
      Find(entries, (e: SymbolEntry) => e.descriptor == descriptor && e.kind == kind).value
    }

    /** `symbols.list(file).map(e => e.name)`: the names registered for a file, in order. */
    function ListNames(file: GeneratedFile): (names: seq<string>)
      ensures forall n :: n in names <==> exists e :: e in entries && e.file == file && e.name == n
    {
      NamesIn(entries, file)
    }
  }

  /** The names of the entries registered for `file`, in registration order. */
  function NamesIn(entries: seq<SymbolEntry>, file: GeneratedFile): (names: seq<string>)
    ensures forall n :: n in names <==> exists e :: e in entries && e.file == file && e.name == n
  {
    if |entries| == 0 then []
    else
      var rest := NamesIn(entries[1..], file);
      assert forall e :: e in entries <==> e == entries[0] || e in entries[1..];
      if entries[0].file == file then [entries[0].name] + rest else rest
  }

  /** The source file under construction: its name and its statement list. */
  class TypescriptFile {
    const fileName: string
    var statements: seq<Statement>

    constructor (fileName: string, statements: seq<Statement>)
      ensures this.fileName == fileName && this.statements == statements
    {
      this.fileName := fileName;
      this.statements := statements;
    }

    /** `addStatement`: at the top of the file when `atTop`, at the end otherwise. */
    method AddStatement(statement: Statement, atTop: bool)
      modifies this
      ensures statements == if atTop then [statement] + old(statements) else old(statements) + [statement]
    {
      if atTop {
        statements := [statement] + statements;
      } else {
        statements := statements + [statement];
      }
    }
  }

  class TypescriptImportManager {
    const file: GeneratedFile
    const symbols: SymbolTable
    const source: TypescriptFile

    constructor (generatedFile: GeneratedFile, symbols: SymbolTable, source: TypescriptFile)
      ensures this.file == generatedFile && this.symbols == symbols && this.source == source
    {
      this.file := generatedFile;
      this.symbols := symbols;
      this.source := source;
    }

    /** Adds the statement a policy asked for, at the top of the file. */
    method AddIfNeeded(added: Option<Statement>)
      modifies source
      ensures source.statements == AddedAtTop(old(source.statements), added)
    {
      if added.Some? {
        source.AddStatement(added.value, true);
      }
    }

    /**
     * `name`: import {importName} from "importFrom", under a free name if
     * `importName` would collide; returns the local identifier.
     */
    method Name(importName: string, importFrom: string) returns (localName: string)
      modifies source
      ensures var o := NamedImportOutcome(old(source.statements), importName, importFrom,
                                          symbols.ListNames(file), DefaultEscapeCharacter);
              localName == o.localName && source.statements == AddedAtTop(old(source.statements), o.added)
    ensures CollisionFree(NamedImportsOf(old(source.statements))) ==> CollisionFree(NamedImportsOf(source.statements))
    ensures PairsUnique(NamedImportsOf(old(source.statements))) ==> PairsUnique(NamedImportsOf(source.statements))
    {
      var blackListedNames := symbols.ListNames(file);
      NamedImportKeepsBindingsUnique(source.statements, importName, importFrom, blackListedNames, DefaultEscapeCharacter);
      var added;
      localName, added := EnsureNamedImportPresent(source.statements, importName, importFrom, blackListedNames);
      AddIfNeeded(added);
    }

    /** `namespace`: import * as importAs from "importFrom"; returns `importAs`. */
    method Namespace(importAs: string, importFrom: string) returns (localName: string)
      modifies source
      ensures localName == importAs
      ensures source.statements ==
              AddedAtTop(old(source.statements), NamespaceImportOutcome(old(source.statements), importAs, importFrom).added)
    ensures NamedImportsOf(source.statements) == NamedImportsOf(old(source.statements))
    {
      NamespaceImportKeepsNamedImports(source.statements, importAs, importFrom);
      var added;
      localName, added := EnsureNamespaceImportPresent(source.statements, importAs, importFrom);
      AddIfNeeded(added);
    }

    /**
     * `type`: the local identifier for a registered symbol. A symbol of this
     * file needs no import; any other is imported by name from the relative
     * path to its file.
     */
    method Type(descriptor: Descriptor, kind: string := "default") returns (localName: string)
      requires symbols.Has(descriptor, kind)
      modifies source
      ensures var reg := symbols.Get(descriptor, kind);
              reg.file == file ==> localName == reg.name && source.statements == old(source.statements)
      ensures var reg := symbols.Get(descriptor, kind);
              var importPath := RelativeImportPath.CreateRelativeImportPath(source.fileName, reg.file.filename);
              var o := NamedImportOutcome(old(source.statements), reg.name, importPath,
                                          symbols.ListNames(file), DefaultEscapeCharacter);
              reg.file != file ==> localName == o.localName && source.statements == AddedAtTop(old(source.statements), o.added)
    ensures CollisionFree(NamedImportsOf(old(source.statements))) ==> CollisionFree(NamedImportsOf(source.statements))
    ensures PairsUnique(NamedImportsOf(old(source.statements))) ==> PairsUnique(NamedImportsOf(source.statements))
    {
      var symbolReg := symbols.Get(descriptor, kind);
      if symbolReg.file == file {
        return symbolReg.name;
      }
      var importPath := RelativeImportPath.CreateRelativeImportPath(source.fileName, symbolReg.file.filename);
      var blackListedNames := symbols.ListNames(file);
      NamedImportKeepsBindingsUnique(source.statements, symbolReg.name, importPath, blackListedNames, DefaultEscapeCharacter);
      var added;
      localName, added := EnsureNamedImportPresent(source.statements, symbolReg.name, importPath, blackListedNames);
      AddIfNeeded(added);
    }
  }
}
