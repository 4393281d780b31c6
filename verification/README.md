# Metadata-map generator, modelled in Dafny

`generateMetaMap` (`apps/server/helper/meta-map.ts`) turns the list of page
descriptor files `client/pages/(main)/**/metadata.ts` into a generated
TypeScript module. The module has one `import iN from "../<path>"` per
descriptor and a default-exported object that maps each route key, such as
`/users/:id`, to the identifier of its descriptor. The file is rewritten
only when its text changes.

This project models that pass as pure functions and proves what it
computes:

- `Strings` covers JavaScript's first-occurrence `replace`, `join` and a
  one-character `split`. The split reads the generated text back line by line.
- `Decimal` covers the decimal rendering of an index, used in `` `i${index}` ``,
  and its parser.
- `RouteKey` derives a route key:
  - it removes the first `client/pages/(main)`;
  - it removes the first `/metadata.ts`;
  - it makes one left-to-right pass of the regular expression `/\[([^\]]+)\]/g`
    with the replacement `:$1`.

  It also gives a reference reading of that pass, over pieces (a literal
  character, a parameter, an empty `[]`). Every text has such a reading,
  possibly ending in an unclosed `[` tail that the pass copies unchanged.
- `PageTree` covers the directory trees the glob walks, made of static and
  `[dynamic]` segments. It states the route key of every descriptor below
  valid segments (`ValidSegment`) in terms of its segments.
- `OrderedTable` covers the `Record<string, string>` route table. It keeps
  entries in first-insertion order, and assigning to a present key overwrites
  it in place. The table is characterised against a reference "last
  assignment wins" reading.
- `MetaMap` covers the `forEach` callback and the fold over the files, the
  template literal, and the read/compare/write step. The file system is one
  `FileState` value.

## Model

| member | source | states |
|---|---|---|
| Strings.ReplaceFirst | apps/server/helper/meta-map.ts:21-22 | `s.replace(p, rep)` leaves `s` alone when `p` does not occur, and otherwise splices `rep` in place of the leftmost occurrence of `p`, and only that one |
| Strings.JoinAppend | apps/server/helper/meta-map.ts:32-36 | joining two non-empty groups of lines is joining each group and putting the separator between them |
| Strings.SplitJoin | apps/server/helper/meta-map.ts:32-36 | splitting on a newline undoes `join("\n")` for lines without newlines; it is used to read the module back line by line |
| Decimal.NatToString | apps/server/helper/meta-map.ts:25 | `${index}` renders a non-empty run of decimal digits, with no leading zero except for the index 0 itself |
| Decimal.ParseNatToString | apps/server/helper/meta-map.ts:25 | the decimal text of an index, as `${index}` renders it, parses back to the index |
| Decimal.NatToStringInjective | apps/server/helper/meta-map.ts:25 | different indices have different decimal texts |
| RouteKey.RewriteParams | apps/server/helper/meta-map.ts:23 | the bracket rewrite never lengthens the text, and it yields the empty string exactly for the empty input |
| RouteKey.RewriteOnDisk | apps/server/helper/meta-map.ts:23 | for any text read as pieces (literal characters other than `[`, parameters `[name]` with a non-empty name free of `]`, and empty `[]`), the rewrite turns every parameter into `:name`, keeps every literal and keeps `[]` as written |
| RouteKey.RewritePlain | apps/server/helper/meta-map.ts:23 | text without `[` passes the rewrite unchanged, and the scan carries on after it |
| RouteKey.RewriteParamFirst | apps/server/helper/meta-map.ts:23 | a leading `[name]` becomes `:name` and the scan resumes right after its `]` |
| RouteKey.EmptyBracketsKept | apps/server/helper/meta-map.ts:23 | `[]` is not a parameter: it stays as written, and scanning continues after it |
| RouteKey.NoOpenUnchanged | apps/server/helper/meta-map.ts:23 | text without `[` has no match, so the rewrite returns it unchanged |
| RouteKey.NoCloseUnchanged | apps/server/helper/meta-map.ts:23 | text without `]` has no match either, even when it holds `[`: an unclosed bracket is copied as written |
| RouteKey.ReadPiecesSound | apps/server/helper/meta-map.ts:23 | every text splits into literal characters, parameters `[name]` and empty `[]`, followed by a tail without `]`, and spelling those pieces on disk gives the text back |
| RouteKey.RewriteByPieces | apps/server/helper/meta-map.ts:23 | for every text, the rewrite turns each parameter of that reading into `:name`, keeps the literals and `[]`, and copies the tail unchanged |
| RouteKey.RewriteKeepsChar | apps/server/helper/meta-map.ts:23 | apart from `[`, `]` and `:`, a character occurs in the rewritten text exactly when it occurs in the input |
| RouteKey.RootRouteKey | apps/server/helper/meta-map.ts:20-23 | the root descriptor `client/pages/(main)/metadata.ts` has the empty route key |
| RouteKey.NestedRouteKey | apps/server/helper/meta-map.ts:20-23 | `client/pages/(main)/P/metadata.ts` has the key `/P` with its brackets rewritten, whenever `/P` holds no `/metadata.ts` of its own |
| RouteKey.RouteKeyOfPieces | apps/server/helper/meta-map.ts:20-23 | for every path, the route key is the path with its first `client/pages/(main)` and first `/metadata.ts` removed, and the remainder rewritten piece by piece |
| RouteKey.RouteKeyAddsNoChar | apps/server/helper/meta-map.ts:20-23 | deriving a route key introduces no character except `:`, brackets included: a single-line path gives a single-line key, and a path without brackets gives a key without them |
| RouteKey.RouteKeyNotSpecial | apps/server/helper/meta-map.ts:12-23 | a descriptor path the glob can report never yields an integer-like key or `__proto__`, so the route table's enumeration order is plain insertion order |
| PageTree.RewriteDir | apps/server/helper/meta-map.ts:23 | on directories of valid segments, the rewrite turns the on-disk spelling `/a/[b]` into the route spelling `/a/:b`, one segment at a time |
| PageTree.NoSuffixInDir | apps/server/helper/meta-map.ts:22 | directories of valid segments never contain `/metadata.ts`, so the suffix removal takes the descriptor's own file name |
| PageTree.RouteKeyOfTree | apps/server/helper/meta-map.ts:20-23 | the descriptor below any valid directory tree has, as its route key, that tree's route spelling |
| PageTree.UsersExample | apps/server/helper/meta-map.ts:20-23 | `client/pages/(main)/users/[id]/metadata.ts` has the key `/users/:id`, for every parameter name `id` |
| PageTree.TwoParamExample | apps/server/helper/meta-map.ts:20-23 | `client/pages/(main)/a/[x]/b/[y]/metadata.ts`, such as `orgs/[orgId]/repos/[repoId]`, has the key `/a/:x/b/:y`: two separate rewrites |
| PageTree.MetadataDirectoryKey | apps/server/helper/meta-map.ts:22 | a directory named `metadata.ts` right below the root is what the first-occurrence removal takes away, so the descriptor's file name stays at the end of the key |
| PageTree.ColonDirectoryCollides | apps/server/helper/meta-map.ts:20-27 | the directories `:x` and `[x]` are different, but their descriptors get the same route key and compete for one table entry |
| OrderedTable.Get | apps/server/helper/meta-map.ts:27 | a lookup succeeds exactly for keys present in the table, and it returns an entry of the table |
| OrderedTable.Put | apps/server/helper/meta-map.ts:27 | after `t[k] = v`, `k` reads `v`; a present key keeps its position, a new key is appended last, and keys stay unique |
| OrderedTable.PutKeepsOthers | apps/server/helper/meta-map.ts:27 | an assignment to `k` leaves every other key's value as it was |
| OrderedTable.LastValueIsLast | apps/server/helper/meta-map.ts:27 | in the reference reading, a key's value is the value of its last assignment |
| OrderedTable.BuildUniqueKeys | apps/server/helper/meta-map.ts:27 | a table built by successive assignments never lists a key twice |
| OrderedTable.BuildLookup | apps/server/helper/meta-map.ts:27 | every key of the built table reads the value of its last assignment, and an unassigned key reads nothing |
| OrderedTable.BuildKeySet | apps/server/helper/meta-map.ts:27 | the built table holds exactly the assigned keys |
| OrderedTable.BuildEntriesAssigned | apps/server/helper/meta-map.ts:27 | every entry of the built table is one of the assignments |
| OrderedTable.BuildEntries | apps/server/helper/meta-map.ts:27 | each entry of the built table pairs its key with that key's last assigned value |
| OrderedTable.BuildSize | apps/server/helper/meta-map.ts:27 | the built table has one entry per distinct assigned key |
| OrderedTable.BuildOrder | apps/server/helper/meta-map.ts:27 | the positions of the keys' first assignments increase along the table: entries are ordered by first assignment, and a later re-assignment does not move an entry |
| OrderedTable.BuildPositions | apps/server/helper/meta-map.ts:27 | one more assignment keeps the earlier entries in place, and a new key is appended with the last assignment as its first |
| MetaMap.ImportName | apps/server/helper/meta-map.ts:25 | the identifier is `i` followed by digits that read back as the file's index |
| MetaMap.ImportNamesDistinct | apps/server/helper/meta-map.ts:25 | different files get different identifiers, even when their route keys collide |
| MetaMap.ImportPathRemovesFirst | apps/server/helper/meta-map.ts:26 | the import path drops the first `.ts` and only that one: the extension when no directory name holds `.ts` |
| MetaMap.ImportPathLength | apps/server/helper/meta-map.ts:26 | a path without `.ts` is imported as it is; otherwise the import path is exactly three characters shorter |
| MetaMap.ImportLineWords | apps/server/helper/meta-map.ts:26 | for a path without spaces, the import line reads as the four words `import`, the identifier, `from` and the quoted `../` path |
| MetaMap.VisitEffect | apps/server/helper/meta-map.ts:25-27 | one callback appends its import line, makes its route key read its identifier, leaves every other key alone and keeps keys unique |
| MetaMap.Run | apps/server/helper/meta-map.ts:19-28 | the `forEach` pushes one import line per file, in file order |
| MetaMap.RunRoutes | apps/server/helper/meta-map.ts:27 | the callbacks' assignments to `routes` build exactly the ordered table of those assignments |
| MetaMap.CollectImports | apps/server/helper/meta-map.ts:19-26 | there are exactly as many import lines as files, and line `i` imports file `i` as `i<i>` |
| MetaMap.CollectRoutes | apps/server/helper/meta-map.ts:19-27 | the route table is the ordered table built from the assignments (route key of file `i`, identifier `i<i>`) |
| MetaMap.LastFileWins | apps/server/helper/meta-map.ts:27 | a route key maps to the identifier of the last file that produced it |
| MetaMap.RouteKeysPresent | apps/server/helper/meta-map.ts:27 | the table has an entry for a key exactly when some file produced that key |
| MetaMap.RoutesInFirstSeenOrder | apps/server/helper/meta-map.ts:27-36 | table entries, as `Object.entries` lists them, have unique keys and come in the order each key was first produced |
| MetaMap.RouteKeysOrdinary | apps/server/helper/meta-map.ts:17-27 | when every file is a descriptor path, no key of the table is integer-like or `__proto__` |
| MetaMap.ImportLineOneLine | apps/server/helper/meta-map.ts:26 | the import line of a single-line path is a single line |
| MetaMap.EntryLineFields | apps/server/helper/meta-map.ts:35 | for a key and identifier without `"`, the entry line splits on `"` into the indent, the key, and `: <id>,` |
| MetaMap.EntryLinesFields | apps/server/helper/meta-map.ts:34-36 | there is one entry line per table entry, in table order, each carrying that entry's key and identifier |
| MetaMap.EntryLinesOneLine | apps/server/helper/meta-map.ts:34-36 | for single-line paths every entry line `  "<route>": <id>,` is a single line |
| MetaMap.RenderIsJoinedLines | apps/server/helper/meta-map.ts:30-38 | the template literal is the newline-join of: the header, the imports, an empty line, `export default {`, the entries, `}`, and an empty last line |
| MetaMap.RenderLines | apps/server/helper/meta-map.ts:30-38 | split on newlines, the rendered text gives back exactly those lines |
| MetaMap.RenderReadsBack | apps/server/helper/meta-map.ts:30-38 | read back line by line, the rendered module has import `i` on line `1 + i` and entry `j` right after the import group, the empty line and the export opener |
| MetaMap.ContentReadsBack | apps/server/helper/meta-map.ts:30-38 | for single-line paths, line `1 + i` of the generated module imports file `i` as `i<i>`, and the entry lines follow in table order |
| MetaMap.ContentLines | apps/server/helper/meta-map.ts:30-38 | for single-line paths, the generated module reads back line by line as the header, the import lines, an empty line, the export opener, one entry line per distinct route key, the closing brace and an empty last line |
| MetaMap.NoDescriptors | apps/server/helper/meta-map.ts:30-38 | with no descriptors the module is the header, two empty lines and an empty exported object |
| MetaMap.Generate | apps/server/helper/meta-map.ts:40-46 | a missing file is an error; otherwise the file ends up holding the generated content, and it is written exactly when its text differed |
| MetaMap.GenerateIdempotent | apps/server/helper/meta-map.ts:40-46 | a second run over the same files finds the file current and writes nothing |
| MetaMap.SkipWhenCurrent | apps/server/helper/meta-map.ts:44 | a file that already holds the generated content is left as it is |

## Left out

- Discovery (lines 12-14) is an input. The glob call becomes the list of paths it returned, in its order, with `/` separators and no leading `./`. Windows separators are not modelled.
- Watch mode and the entry point (lines 49-83) are left out: the chokidar events, the SIGINT handler and the mode dispatch. Runs that overlap there are event-loop I/O, outside this pure pass. The code passes `ignoreInitial: false`, so files that already exist also fire `add` events.
- The descriptor file name is `metadata.ts`: the code's glob and its suffix removal both fix it.
- File I/O is `FileState`. `path.resolve`, the UTF-8 decoding and `console.info` are not modelled. The log line is the `wrote` flag.
- Failures other than a missing generated file are not modelled: permission errors, write failures, a rejected glob. They are exceptions the code passes through unchanged. A missing file is the `ReadFailed` error, because `readFile` rejects before any write.
- The JavaScript regular-expression engine in general is not modelled. Only the one bracket pattern is modelled, as a recursive scan.
- The callback is modelled as computing its three locals (a `Step`) and then applying them. That is the order the source's statements take.
- Route keys and paths go into the output without escaping, as in the code. A `"` or a newline in a directory name gives a broken module. The line-by-line reading assumes single-line paths.
- JavaScript's special property keys are not modelled: integer-like keys enumerate first, and `__proto__` assignment is special. `RouteKey.RouteKeyNotSpecial` shows descriptor paths never produce such keys.
- `PageTree.RouteKeyOfTree` covers only directories of valid segments (`ValidSegment`). Three kinds of name fall outside, and for them only the general `RouteKey.RouteKeyOfPieces` reading applies. A static name holding `[`, such as `a[b`. A static name beginning with `metadata.ts`: `metadata.tsx/metadata.ts` gets the key `x/metadata.ts`, because the first `/metadata.ts` is the directory's. A dynamic name holding `]`: `[[...slug]]` gets the key `:[...slug]`, because the match ends at the first `]`.
- The concrete examples (`users/[id]`, `orgs/[orgId]/repos/[repoId]`) are stated for every parameter name and every pair of static names, not for one fixed spelling.
