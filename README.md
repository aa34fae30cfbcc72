# Import-directive manager of the protobuf-ts plugin framework, in Dafny

This project models `TypescriptImportManager` and the functions beside it
in `packages/plugin-framework/src/typescript-import-manager.ts`. A code
generator asks the manager for the local identifier under which a symbol
can be used in the file it is generating. The manager either reuses an
import declaration the file already has, or adds one at the top of the
file, renaming the binding when its name would collide.

Modules, one per part of the source file:

- `Wrappers` (`wrappers.dfy`): `Option` (for `undefined`, with `??`) and
  `Find` (for `Array.prototype.find`).
- `ImportDirectives` (`directives.dfy`): the statements of a source file as
  a datatype (import declarations with an optional clause, an optional
  default name and optional named or namespace bindings; every other
  statement is `OtherStatement`), the scanner's records, and the directive
  constructors `createNamedImport` / `createNamespaceImport`.
- `ImportScanner` (`scanner.dfy`): `findNamedImports` and
  `findNamespaceImports` as loops over the statement list, each proved
  equal to a recursive specification function.
- `AliasCandidates` (`aliases.dfy`): the identifiers the alias loop tries
  (`X`, `X$`, `X$2`, `X$3`, ...), the proof that they are pairwise
  distinct, and the pigeonhole bound that makes the loop stop.
- `ImportPolicy` and `ImportPolicyProperties` (`policy.dfy`):
  `ensureNamedImportPresent` and `ensureNamespaceImportPresent` as methods
  proved against specification functions, and the properties of a
  sequence of calls: idempotence, no new binding in `taken`, no two pairs
  sharing a local name, and the asymmetry of the namespace policy.
- `RelativeImportPath` (`paths.dfy`): `createRelativeImportPath` over
  '/'-separated paths. `path.relative` and `path.dirname` are defined on
  normalised segment lists, and the result is proved to lead back to the
  target.
- `ImportManager` (`manager.dfy`): the symbol table (a sequence of
  registrations), the source file (a class holding the statement list),
  and the `TypescriptImportManager` class with `name`, `namespace` and
  `type`.

The callback `addStatementFn` cannot be passed to a Dafny method that
mutates. Instead, each policy method returns the statement it would add
(`added`), and the manager adds it with `addStatement(statement, true)`.
That puts it at the top of the file (`AddedAtTop`). All state is the
statement list of the file, and every call adds zero or one statement and
changes none of the others.

The alias loop follows the code. Because the test at line 199 is
`i++ > 0`, the second alias is `X$2`. `X$1` is never tried
(`AliasAfterTwoCollisions`, `CandidateNeverOne`). A reader expecting the
sequence `X$`, `X$1`, `X$2` will not find it here.

## Model

| member | source | states |
|---|---|---|
| `Wrappers.Find` | packages/plugin-framework/src/typescript-import-manager.ts:189 | `find` yields no element exactly when none satisfies the predicate; otherwise it yields the element at the first satisfying position. |
| `ImportDirectives.SpecifierRecord` | packages/plugin-framework/src/typescript-import-manager.ts:257-269 | A specifier's record has the exported name `propertyName ?? name`. Its effective local name is the specifier's `name`, and it points at the statement's module. |
| `ImportDirectives.StatementNamedImportsSpec` | packages/plugin-framework/src/typescript-import-manager.ts:252-271 | One statement contributes one named record per specifier of its `import {...}` clause, in order, each from the statement's module, with local name `name` and exported name `propertyName ?? name`. Any other statement, including a default-only, namespace or side-effect import, contributes nothing. |
| `ImportDirectives.StatementNamespaceImportsSpec` | packages/plugin-framework/src/typescript-import-manager.ts:147-156 | One statement contributes at most one namespace record. It contributes one exactly when it is an `import * as` declaration, and the record carries that alias and the module. |
| `ImportDirectives.CreateNamedImport` | packages/plugin-framework/src/typescript-import-manager.ts:213-243 | Scanning the created directive gives back exactly one named record, `{name, as, from}`, and no namespace record. An empty alias is falsy and gives the unaliased form. |
| `ImportDirectives.CreateNamespaceImport` | packages/plugin-framework/src/typescript-import-manager.ts:129-139 | Scanning the created directive gives back exactly the namespace record `{as, from}` and no named record. |
| `ImportScanner.NamedImportsOfConcat` | packages/plugin-framework/src/typescript-import-manager.ts:251-273 | The named scan is statement by statement: the records of `a + b` are those of `a`, then those of `b`. |
| `ImportScanner.NamespaceImportsOfConcat` | packages/plugin-framework/src/typescript-import-manager.ts:146-157 | The namespace scan is statement by statement: the records of `a + b` are those of `a`, then those of `b`. |
| `ImportScanner.NamedImportsOfMembership` | packages/plugin-framework/src/typescript-import-manager.ts:249-275 | A record is in the scan exactly when some statement contributes it: nothing invented, nothing missed. |
| `ImportScanner.NamedImportsOfPrefix` | packages/plugin-framework/src/typescript-import-manager.ts:251-273 | Scanning one more statement appends exactly that statement's records. |
| `ImportScanner.NamespaceImportsOfPrefix` | packages/plugin-framework/src/typescript-import-manager.ts:146-157 | Scanning one more statement appends exactly that statement's namespace records. |
| `ImportScanner.FindNamedImports` | packages/plugin-framework/src/typescript-import-manager.ts:249-275 | The loop returns one record per specifier of each import whose clause has named bindings, in order. Side-effect, default-only and namespace imports and all other statements are skipped. |
| `ImportScanner.FindNamespaceImports` | packages/plugin-framework/src/typescript-import-manager.ts:144-159 | The loop returns one `{as, from}` record per `import * as` declaration, in order, and skips everything else. |
| `AliasCandidates.Decimal` | packages/plugin-framework/src/typescript-import-manager.ts:200 | `as += i` appends the decimal digits of `i`: only digits, no leading zero, and reading them back gives `i`. |
| `AliasCandidates.CandidateShape` | packages/plugin-framework/src/typescript-import-manager.ts:196-201 | Each value `as` takes starts with `importName`. Only the first is `importName` itself; every later one continues with the escape character, and from the third on with the digits of its index. |
| `AliasCandidates.DecimalInjective` | packages/plugin-framework/src/typescript-import-manager.ts:200 | Distinct counters give distinct suffixes (`as += i`). |
| `AliasCandidates.CandidateInjective` | packages/plugin-framework/src/typescript-import-manager.ts:195-202 | The identifiers tried by the alias loop are pairwise distinct. |
| `AliasCandidates.CandidateNeverOne` | packages/plugin-framework/src/typescript-import-manager.ts:199-200 | No candidate is `X$1`: the post-increment test skips it. |
| `AliasCandidates.CandidateSetSize` | packages/plugin-framework/src/typescript-import-manager.ts:195-202 | The first `n` candidates are `n` different identifiers. |
| `AliasCandidates.CandidatesTakenBound` | packages/plugin-framework/src/typescript-import-manager.ts:197-202 | If the first `n` candidates are all taken, `taken` has at least `n` entries. So a finite `taken` stops the loop. |
| `AliasCandidates.FirstFreeFrom` | packages/plugin-framework/src/typescript-import-manager.ts:194-202 | The search returns a candidate index that is not taken and has every earlier candidate taken, within `|taken|`. |
| `AliasCandidates.FirstFreeIndex` | packages/plugin-framework/src/typescript-import-manager.ts:193-203 | The first free candidate. It is `importName` itself exactly when `importName` is not taken. |
| `ImportPolicy.AddedAtTop` | packages/plugin-framework/src/typescript-import-manager.ts:39 | Adding through the manager's callback puts the added statement first and keeps every existing statement, unchanged and in order, after it; with nothing to add the list is unchanged. |
| `ImportPolicy.TakenNames` | packages/plugin-framework/src/typescript-import-manager.ts:188 | A name is taken exactly when it is blacklisted or is the effective local name (`as ?? name`) of an existing named import. |
| `ImportPolicy.NamedImportOutcome` | packages/plugin-framework/src/typescript-import-manager.ts:178-207 | Nothing is added exactly when `(importName, importFrom)` is already imported, and then the first match's `as ?? name` is returned. Otherwise one directive is added. Its local name is not taken, equals `importName` exactly when that is free (else it is recorded as the alias), and is the first free candidate. |
| `ImportPolicy.EnsureNamedImportPresent` | packages/plugin-framework/src/typescript-import-manager.ts:178-207 | The scan, the match and the alias `while` loop return exactly the identifier and the single statement that `NamedImportOutcome` describes. |
| `ImportPolicy.NamespaceImportOutcome` | packages/plugin-framework/src/typescript-import-manager.ts:107-124 | The answer is always `asName`. Nothing is added exactly when `{as: asName, from: importFrom}` is already present; otherwise `import * as asName from importFrom` is added. |
| `ImportPolicy.EnsureNamespaceImportPresent` | packages/plugin-framework/src/typescript-import-manager.ts:109-124 | The scan and the match return exactly what `NamespaceImportOutcome` describes. |
| `ImportPolicyProperties.NamedImportIdempotent` | packages/plugin-framework/src/typescript-import-manager.ts:186-192 | A second identical request returns the same identifier and adds nothing, whatever the blacklist is then. |
| `ImportPolicyProperties.NamedImportKeepsBindingsUnique` | packages/plugin-framework/src/typescript-import-manager.ts:186-206 | The named policy keeps two things true. No two different `(name, from)` pairs share a local identifier, and no pair is imported twice. A freshly bound name is never blacklisted. |
| `ImportPolicyProperties.NamespaceImportIdempotent` | packages/plugin-framework/src/typescript-import-manager.ts:115-123 | A second identical namespace request returns the alias and adds nothing. |
| `ImportPolicyProperties.NamespaceImportKeepsNamedImports` | packages/plugin-framework/src/typescript-import-manager.ts:252-254 | A namespace directive adds no named record, so namespace aliases never become taken names. |
| `ImportPolicyProperties.NamedImportKeepsNamespaceImports` | packages/plugin-framework/src/typescript-import-manager.ts:147-149 | A named directive adds no namespace record. |
| `ImportPolicyProperties.AliasAfterTwoCollisions` | packages/plugin-framework/src/typescript-import-manager.ts:195-201 | With `X` and `X$` taken, the identifier is `X$2`. |
| `ImportPolicyProperties.SameNameFromTwoModules` | packages/plugin-framework/src/typescript-import-manager.ts:186-206 | `Foo` from `./shapes` into an empty file binds `Foo` unaliased. `Foo` from `./other` next binds `Foo as Foo$`. |
| `ImportPolicyProperties.NamespaceAliasNotCheckedForCollision` | packages/plugin-framework/src/typescript-import-manager.ts:107-123 | `* as Foo` is added and `Foo` returned even though a named import already binds `Foo`. |
| `ImportPolicyProperties.NamedImportIgnoresNamespaceAlias` | packages/plugin-framework/src/typescript-import-manager.ts:188 | Beside `import * as Foo`, a named `Foo` is bound unaliased: namespace aliases are not taken. |
| `ImportPolicyProperties.NamedImportIgnoresDefaultImport` | packages/plugin-framework/src/typescript-import-manager.ts:252-254 | Beside a default import `Foo`, a named `Foo` is bound unaliased: default names are not taken. |
| `RelativeImportPath.RelativeResolves` | packages/plugin-framework/src/typescript-import-manager.ts:283 | Walking the relative segment path from the source directory arrives at the target. |
| `RelativeImportPath.RelativePathReachesTarget` | packages/plugin-framework/src/typescript-import-manager.ts:283 | Following `path.relative(path.dirname(currentPath), pathToImportFrom)` from the current file's directory reaches the imported file. |
| `RelativeImportPath.Dirname` | packages/plugin-framework/src/typescript-import-manager.ts:283 | `path.dirname` drops exactly the last segment. |
| `RelativeImportPath.Relative` | packages/plugin-framework/src/typescript-import-manager.ts:283 | `path.relative` to a target at or below the start goes down only, through the rest of the target; to an ancestor it goes up only, once per level. |
| `RelativeImportPath.RelativePath` | packages/plugin-framework/src/typescript-import-manager.ts:283 | A file at or below the current file's directory is reached without any `..`, by the segments below that directory. |
| `RelativeImportPath.RelativeToSibling` | packages/plugin-framework/src/typescript-import-manager.ts:283 | From directory `dir/x` to anything under a sibling `dir/y`: one `..`, then down. |
| `RelativeImportPath.RelativePathDown` | packages/plugin-framework/src/typescript-import-manager.ts:283 | The relative path from a file in `dir` to a file under `dir` is its segments below `dir`, joined with `/`. |
| `RelativeImportPath.RelativePathToSibling` | packages/plugin-framework/src/typescript-import-manager.ts:283 | The relative path from a file in `dir/x` to a file under a sibling `dir/y` is `..` followed by the segments below `dir`. |
| `RelativeImportPath.StripExtension` | packages/plugin-framework/src/typescript-import-manager.ts:292 | A final `.` followed by one or more lower-case letters is cut, and nothing else is. A path without such an ending is unchanged. |
| `RelativeImportPath.CreateRelativeImportPath` | packages/plugin-framework/src/typescript-import-manager.ts:281-299 | The reference always starts with `./` or `../`. It is the stripped relative path, prefixed with `./` only when it starts with neither. |
| `RelativeImportPath.RelativeImportPathDown` | packages/plugin-framework/src/typescript-import-manager.ts:281-299 | A file at or below the current file's directory is referenced as `./` + sub-directories + base name (`/gen/foo.ts` to `/gen/sub/bar.ts` gives `./sub/bar`; to `/gen/bar.ts` gives `./bar`). |
| `RelativeImportPath.RelativeImportPathSibling` | packages/plugin-framework/src/typescript-import-manager.ts:281-299 | A file under a sibling directory is referenced as `../` + sibling + rest + base name (`/gen/x/a.ts` to `/gen/y/b.ts` gives `../y/b`). |
| `ImportManager.SymbolTable.Get` | packages/plugin-framework/src/typescript-import-manager.ts:71 | The lookup returns a registration of exactly `(descriptor, kind)`. |
| `ImportManager.SymbolTable.ListNames` | packages/plugin-framework/src/typescript-import-manager.ts:33 | The blacklist holds exactly the names registered for this file. |
| `ImportManager.TypescriptFile.AddStatement` | packages/plugin-framework/src/typescript-import-manager.ts:39 | `addStatement(s, true)` puts `s` before all existing statements. Otherwise `s` goes after them. |
| `ImportManager.TypescriptImportManager.AddIfNeeded` | packages/plugin-framework/src/typescript-import-manager.ts:39 | The callback adds the policy's statement, if any, at the top of the file. |
| `ImportManager.TypescriptImportManager.Name` | packages/plugin-framework/src/typescript-import-manager.ts:32-41 | Returns the named policy's identifier, with the file's registered names as blacklist, and the file gains exactly the policy's statement. Collision-freedom and pair uniqueness are preserved. |
| `ImportManager.TypescriptImportManager.Namespace` | packages/plugin-framework/src/typescript-import-manager.ts:49-56 | Returns `importAs`, the file gains exactly the namespace policy's statement, and the named records are unchanged. |
| `ImportManager.TypescriptImportManager.Type` | packages/plugin-framework/src/typescript-import-manager.ts:70-92 | A symbol of this file returns its registered name and leaves the statements unchanged. Any other symbol behaves exactly like `name(registeredName, createRelativeImportPath(thisFile, itsFile))`. Collision-freedom and pair uniqueness are preserved. |

## Left out

- The TypeScript compiler API (`ts.createImportDeclaration`, `ts.isImportDeclaration`, `escapedText`, ...) is a foreign library. Statements are a datatype instead, and the `assert(ts.isStringLiteral(...))` checks (lines 150, 256) are built in: module specifiers are strings.
- Identifiers are read back unchanged, where the scanners at lines 151 and 260-266 read `escapedText`. TypeScript escapes an identifier that starts with `__` by adding an extra `_`, so in the source a second `name("__x", m)` neither matches the first import nor finds `__x` taken, and adds a duplicate directive. `ImportPolicyProperties.NamedImportIdempotent` holds for every name in the model. The names the generator imports are protobuf-derived identifiers, which start with a letter, so this case does not arise in practice.
- Type-only imports and `import x = require(...)` are not distinguished. The first is scanned like any import; the second is an `OtherStatement`, as the source ignores it.
- `path.relative` and `path.dirname` are modelled on '/'-separated paths normalised like `path.resolve` (empty and `.` segments dropped, `..` goes up). Relative inputs are treated as rooted, because resolving them against the process's working directory is I/O. `path.dirname` is applied to the normalised path, while Node's works on the raw text. The two differ only when the current path's last segment is `.` or `..`: for `/a/b/..` importing `/a/b/c.ts`, the model's reference is `./a/b/c` and Node's is `./c`. Generated file names never end that way.
- The Windows branch at lines 287-289 (`path.sep !== "/"`) is not modelled. The model is the POSIX behaviour, where it does nothing.
- `TypescriptFile`, `GeneratedFile` and `SymbolTable` are not part of this model beyond what the manager uses. `addStatement(s, true)` is modelled as putting `s` first, `symbols.get` as the first registration of the pair, and `symbols.list(file)` as the registrations of that file in order. File identity (`===`) is value equality of a file id and name, and a descriptor is identified by a string.
- `ImportManager.TypescriptImportManager.Type`: asking for an unregistered `(descriptor, kind)` is a caller error that throws in the source; here it is a precondition.
- `ImportPolicy.EnsureNamedImportPresent`: the escape character is a single `char` (default `$`). The source accepts any string, but no caller passes one.
- `packages/runtime-rpc/src/reflection-info.ts`, `packages/twirp-transport/src/twirp-options.ts` and `packages/grpc-transport/src/grpc-options.ts` are not part of this model. They are interface declarations and trivial lookups through foreign helpers.
