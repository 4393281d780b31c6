/**
 `generateMetaMap`: one pass over the descriptor files the glob reported,
 building the import lines and the route table, rendering the generated
 module, and writing it only when its text changed.
 */
module MetaMap {
  import opened Wrappers
  import opened Strings
  import opened Decimal
  import opened RouteKey
  import opened OrderedTable

  /** First line of the generated module. */
  const Header: string := "// This file is generated by `pnpm run meta`"

  /** The identifier `i<index>` that the descriptor at `index` is imported as. */
  function ImportName(index: nat): (r: string)
    ensures |r| >= 2 && r[0] == 'i'
    ensures AllDigits(r[1..]) && ParseNat(r[1..]) == index
  {
    ParseNatToString(index);
    assert ("i" + NatToString(index))[1..] == NatToString(index);
    "i" + NatToString(index)
  }

  /** Different indices never share an identifier. */
  lemma ImportNamesDistinct(m: nat, n: nat)
    requires m != n
    ensures ImportName(m) != ImportName(n)
  {
    assert ImportName(m)[1..] != ImportName(n)[1..];
  }

  /** The module specifier: the file path with its first `.ts` removed. */
  function ImportPath(file: string): string {
    ReplaceFirst(file, ".ts", "")
  }

  /** A path without `.ts` is kept as it is; otherwise exactly one `.ts`,
      three characters, goes. */
  lemma ImportPathLength(file: string)
    ensures !Contains(file, ".ts") ==> ImportPath(file) == file
    ensures Contains(file, ".ts") ==> |ImportPath(file)| + 3 == |file|
  {
    match IndexOf(file, ".ts")
    case None =>
    case Some(i) =>
      assert IsFirstOccurrence(file, ".ts", i);
  }

  /** When `a` holds no `.ts`, the first `.ts` of `a + ".ts" + b` is the
      one right after `a`, and only it is removed. For a descriptor path
      (`b` empty) this drops the extension; a directory whose name holds
      `.ts`, such as `a.tsx`, would have that part removed instead. */
  lemma ImportPathRemovesFirst(a: string, b: string)
    requires !Contains(a, ".ts")
    ensures ImportPath(a + ".ts" + b) == a + b
  {
    var s := a + ".ts" + b;
    var n := |a|;
    assert OccursAt(s, ".ts", n) by {
      assert s[n..n + 3] == ".ts";
    }
    forall i: nat | i < n
      ensures !OccursAt(s, ".ts", i)
    {
      if i + 3 <= n {
        assert s[i..i + 3] == a[i..i + 3];
        assert !OccursAt(a, ".ts", i);
      } else {
        assert s[n] == '.';
        assert s[i..i + 3][n - i] == s[n];
      }
    }
    assert IsFirstOccurrence(s, ".ts", n);
    assert s[..n] + s[n + 3..] == a + b;
  }

  /** `import iN from "../<path>"` for the descriptor at `index`. */
  function ImportLine(index: nat, file: string): string {
    "import " + ImportName(index) + " from \"../" + ImportPath(file) + "\""
  }

  /** Read as space-separated words, the import line of a path without
      spaces is `import`, the identifier, `from` and the quoted specifier:
      it binds `i<index>` to the file's module. */
  lemma ImportLineWords(index: nat, file: string)
    requires ' ' !in file
    ensures Split(ImportLine(index, file), ' ') == ["import", ImportName(index), "from", "\"../" + ImportPath(file) + "\""]
  {
    var n := ImportName(index);
    var q := "\"../" + ImportPath(file) + "\"";
    ReplaceFirstAddsNoChar(file, ".ts", ' ');
    assert ' ' !in n by {
      forall j | 0 <= j < |n|
        ensures n[j] != ' '
      {
        if j > 0 {
          assert n[j] == n[1..][j - 1];
        }
      }
    }
    assert ' ' !in q;
    assert ImportLine(index, file) == "import" + [' '] + n + [' '] + "from" + [' '] + q;
    SplitFourWords("import", n, "from", q, ' ');
  }

  /** What one invocation of the `forEach` callback computes for `file` at
      `index`: its route key, its identifier and its import line. */
  datatype Step = Step(routePath: string, importName: string, importLine: string)

  function StepOf(file: string, index: nat): Step {
    Step(RouteKeyOf(file), ImportName(index), ImportLine(index, file))
  }

  function Steps(files: seq<string>): (steps: seq<Step>)
    ensures |steps| == |files|
    ensures forall i :: 0 <= i < |files| ==> steps[i] == StepOf(files[i], i)
  {
    seq(|files|, i requires 0 <= i < |files| => StepOf(files[i], i))
  }

  /** What the `forEach` callback has built so far: `imports` and `routes`. */
  datatype Accumulator = Accumulator(imports: seq<string>, routes: Table)

  /** The callback's effect: push the import line, then `routes[routePath] = importName`. */
  function Visit(acc: Accumulator, st: Step): Accumulator {
    Accumulator(acc.imports + [st.importLine], Put(acc.routes, st.routePath, st.importName))
  }

  /** One callback: its import line is pushed last, its route key reads its
      identifier, every other key keeps its value, and keys stay unique. */
  lemma VisitEffect(acc: Accumulator, st: Step)
    ensures Visit(acc, st).imports == acc.imports + [st.importLine]
    ensures Get(Visit(acc, st).routes, st.routePath) == Some(st.importName)
    ensures forall k :: k != st.routePath ==> Get(Visit(acc, st).routes, k) == Get(acc.routes, k)
    ensures UniqueKeys(Keys(acc.routes)) ==> UniqueKeys(Keys(Visit(acc, st).routes))
  {
    forall k | k != st.routePath
      ensures Get(Visit(acc, st).routes, k) == Get(acc.routes, k)
    {
      PutKeepsOthers(acc.routes, st.routePath, st.importName, k);
    }
  }

  /** The callbacks in array order, starting from `[]` and `{}`. */
  function Run(steps: seq<Step>): (acc: Accumulator)
    ensures |acc.imports| == |steps|
    ensures forall i :: 0 <= i < |steps| ==> acc.imports[i] == steps[i].importLine
  {
    if |steps| == 0 then Accumulator([], [])
    else
      var n := |steps| - 1;
      Visit(Run(steps[..n]), steps[n])
  }

  /** The assignments to `routes`, in order. */
  function RouteAssignments(steps: seq<Step>): (ps: seq<(K, V)>)
    ensures |ps| == |steps|
    ensures forall i :: 0 <= i < |steps| ==> ps[i] == (steps[i].routePath, steps[i].importName)
  {
    seq(|steps|, i requires 0 <= i < |steps| => (steps[i].routePath, steps[i].importName))
  }

  /** The route table is the ordered table its assignments build. */
  lemma {:induction false} RunRoutes(steps: seq<Step>)
    ensures Run(steps).routes == Build(RouteAssignments(steps))
  {
    if |steps| > 0 {
      var n := |steps| - 1;
      RunRoutes(steps[..n]);
      assert RouteAssignments(steps)[..n] == RouteAssignments(steps[..n]);
    }
  }

  /** The state after `files.forEach(...)`. */
  function Collect(files: seq<string>): Accumulator {
    Run(Steps(files))
  }

  /** One import line per file, in file order, each naming its file's index. */
  lemma CollectImports(files: seq<string>)
    ensures |Collect(files).imports| == |files|
    ensures forall i :: 0 <= i < |files| ==> Collect(files).imports[i] == ImportLine(i, files[i])
  {
  }

  /** The assignments the loop performs, spelled from the files. */
  function Assignments(files: seq<string>): (ps: seq<(K, V)>)
    ensures |ps| == |files|
    ensures forall i :: 0 <= i < |files| ==> ps[i] == (RouteKeyOf(files[i]), ImportName(i))
  {
    RouteAssignments(Steps(files))
  }

  lemma CollectRoutes(files: seq<string>)
    ensures Collect(files).routes == Build(Assignments(files))
  {
    RunRoutes(Steps(files));
  }

  /** A route key maps to the identifier of the LAST file that produced it. */
  lemma LastFileWins(files: seq<string>, i: nat)
    requires i < |files|
    requires forall j :: i < j < |files| ==> RouteKeyOf(files[j]) != RouteKeyOf(files[i])
    ensures Get(Collect(files).routes, RouteKeyOf(files[i])) == Some(ImportName(i))
  {
    var ps := Assignments(files);
    CollectRoutes(files);
    BuildLookup(ps, RouteKeyOf(files[i]));
    LastValueIsLast(ps, RouteKeyOf(files[i]), i);
  }

  /** The table has an entry for exactly the route keys of the files. */
  lemma RouteKeysPresent(files: seq<string>, k: string)
    ensures k in Keys(Collect(files).routes) <==> exists i :: 0 <= i < |files| && RouteKeyOf(files[i]) == k
  {
    var ps := Assignments(files);
    CollectRoutes(files);
    BuildKeySet(ps, k);
    if k in Keys(ps) {
      var i :| 0 <= i < |ps| && Keys(ps)[i] == k;
      assert RouteKeyOf(files[i]) == k;
    }
    if exists i :: 0 <= i < |files| && RouteKeyOf(files[i]) == k {
      var i :| 0 <= i < |files| && RouteKeyOf(files[i]) == k;
      assert Keys(ps)[i] == k;
    }
  }

  /** Entries are listed in the order their route keys were first produced,
      with no key listed twice. */
  lemma RoutesInFirstSeenOrder(files: seq<string>)
    ensures UniqueKeys(Keys(Collect(files).routes))
    ensures forall i, j :: 0 <= i < j < |Collect(files).routes| ==>
      FirstIndex(Keys(Assignments(files)), Collect(files).routes[i].0)
        < FirstIndex(Keys(Assignments(files)), Collect(files).routes[j].0)
  {
    var ps := Assignments(files);
    var t := Collect(files).routes;
    CollectRoutes(files);
    BuildUniqueKeys(ps);
    BuildOrder(ps);
    var a := Positions(Keys(ps), t);
    forall i, j | 0 <= i < j < |t|
      ensures FirstIndex(Keys(ps), t[i].0) < FirstIndex(Keys(ps), t[j].0)
    {
      assert a[i] < a[j];
    }
  }

  /** When every file is a descriptor path, no route key is integer-like or
      `__proto__`, so enumeration order is insertion order and every
      assignment creates or updates an ordinary property. */
  lemma RouteKeysOrdinary(files: seq<string>)
    requires forall i :: 0 <= i < |files| ==> IsDescriptorPath(files[i])
    ensures forall k :: k in Keys(Collect(files).routes) ==> !IsSpecialPropertyName(k)
  {
    forall k | k in Keys(Collect(files).routes)
      ensures !IsSpecialPropertyName(k)
    {
      RouteKeysPresent(files, k);
      var i :| 0 <= i < |files| && RouteKeyOf(files[i]) == k;
      RouteKeyNotSpecial(files[i]);
    }
  }

  /** One entry of the default export: `  "<route>": <identifier>,`. */
  function EntryLine(route: string, id: string): string {
    "  \"" + route + "\": " + id + ","
  }

  /** Split on double quotes, an entry line gives back its route and, after
      `: `, its identifier, when neither holds a quote. */
  lemma EntryLineFields(route: string, id: string)
    requires '"' !in route && '"' !in id
    ensures Split(EntryLine(route, id), '"') == ["  ", route, ": " + id + ","]
  {
    assert EntryLine(route, id) == "  " + ['"'] + route + ['"'] + (": " + id + ",");
    SplitThreeParts("  ", route, ": " + id + ",", '"');
  }

  /** `Object.entries(routes).map(...)`: one line per entry, in table order. */
  function EntryLines(t: Table): (ls: seq<string>)
    ensures |ls| == |t|
    ensures forall i {:trigger ls[i]} :: 0 <= i < |t| ==> ls[i] == EntryLine(t[i].0, t[i].1)
  {
    if |t| == 0 then [] else [EntryLine(t[0].0, t[0].1)] + EntryLines(t[1..])
  }

  /** Entry line `i` reads back as the `i`th route key and its identifier. */
  lemma EntryLinesFields(t: Table)
    requires forall i :: 0 <= i < |t| ==> '"' !in t[i].0 && '"' !in t[i].1
    ensures |EntryLines(t)| == |t|
    ensures forall i :: 0 <= i < |t| ==> Split(EntryLines(t)[i], '"') == ["  ", t[i].0, ": " + t[i].1 + ","]
  {
    forall i | 0 <= i < |t|
      ensures Split(EntryLines(t)[i], '"') == ["  ", t[i].0, ": " + t[i].1 + ","]
    {
      EntryLineFields(t[i].0, t[i].1);
    }
  }

  /** The generated module's text, laid out as the template literal lays it out. */
  function Render(imports: seq<string>, entries: seq<string>): string {
    Header + "\n" + Join(imports, "\n") + "\n" + "\n" + "export default {" + "\n" + Join(entries, "\n") + "\n" + "}" + "\n"
  }

  function Content(files: seq<string>): string {
    var acc := Collect(files);
    Render(acc.imports, EntryLines(acc.routes))
  }

  /** An empty group of lines still occupies one (empty) line. */
  function Block(ls: seq<string>): (b: seq<string>)
    ensures |b| >= 1
  {
    if |ls| == 0 then [""] else ls
  }

  predicate OneLine(s: string) {
    '\n' !in s
  }

  /** The lines of the generated module, given its import and entry lines. */
  function Lines(imports: seq<string>, entries: seq<string>): seq<string> {
    [Header] + Block(imports) + ["", "export default {"] + Block(entries) + ["}", ""]
  }

  /** Joining the five groups of lines with a separator. */
  lemma JoinGroups(a: seq<string>, b: seq<string>, c: seq<string>, d: seq<string>, e: seq<string>, sep: string)
    requires |a| >= 1 && |b| >= 1 && |c| >= 1 && |d| >= 1 && |e| >= 1
    ensures Join(a + b + c + d + e, sep)
         == Join(a, sep) + sep + Join(b, sep) + sep + Join(c, sep) + sep + Join(d, sep) + sep + Join(e, sep)
  {
    JoinAppend(a, b, sep);
    JoinAppend(a + b, c, sep);
    JoinAppend(a + b + c, d, sep);
    JoinAppend(a + b + c + d, e, sep);
  }

  /** The layout of the module, for any header, opener and closer lines. */
  lemma JoinLayout(h: string, imports: seq<string>, o: string, entries: seq<string>, c: string, sep: string)
    ensures Join([h] + Block(imports) + ["", o] + Block(entries) + [c, ""], sep)
         == h + sep + Join(imports, sep) + sep + sep + o + sep + Join(entries, sep) + sep + c + sep
  {
    JoinGroups([h], Block(imports), ["", o], Block(entries), [c, ""], sep);
    assert Join([h], sep) == h;
    assert Join(["", o], sep) == sep + o by {
      assert ["", o][1..] == [o];
    }
    assert Join([c, ""], sep) == c + sep by {
      assert [c, ""][1..] == [""];
    }
    BlockJoin(imports, sep);
    BlockJoin(entries, sep);
  }

  lemma BlockJoin(ls: seq<string>, sep: string)
    ensures Join(Block(ls), sep) == Join(ls, sep)
  {
  }

  /** The template literal is exactly the newline-joined lines. */
  lemma RenderIsJoinedLines(imports: seq<string>, entries: seq<string>)
    ensures Render(imports, entries) == Join(Lines(imports, entries), "\n")
  {
    JoinLayout(Header, imports, "export default {", entries, "}", "\n");
  }

  /** A list of single lines. */
  predicate AllOneLine(ls: seq<string>) {
    forall i :: 0 <= i < |ls| ==> OneLine(ls[i])
  }

  lemma AllOneLineAppend(a: seq<string>, b: seq<string>)
    requires AllOneLine(a) && AllOneLine(b)
    ensures AllOneLine(a + b)
  {
    forall i | 0 <= i < |a + b|
      ensures OneLine((a + b)[i])
    {
      if i >= |a| {
        assert (a + b)[i] == b[i - |a|];
      }
    }
  }

  lemma HeaderOneLine()
    ensures OneLine(Header)
  {
  }

  /** Read line by line, the generated module is the header, the import
      lines, an empty line, the export opener, the entry lines, the closing
      brace and the empty remainder after the final newline. */
  lemma RenderLines(imports: seq<string>, entries: seq<string>)
    requires AllOneLine(imports) && AllOneLine(entries)
    ensures Split(Render(imports, entries), '\n') == Lines(imports, entries)
  {
    RenderIsJoinedLines(imports, entries);
    HeaderOneLine();
    var a := [Header];
    var b := Block(imports);
    var c := ["", "export default {"];
    var d := Block(entries);
    var e := ["}", ""];
    assert AllOneLine(a) && AllOneLine(b) && AllOneLine(c) && AllOneLine(d) && AllOneLine(e);
    AllOneLineAppend(a, b);
    AllOneLineAppend(a + b, c);
    AllOneLineAppend(a + b + c, d);
    AllOneLineAppend(a + b + c + d, e);
    SplitJoin(Lines(imports, entries), '\n');
  }

  /** Lines an import or entry group takes: an empty group still takes one. */
  function GroupHeight(ls: seq<string>): (h: nat)
    ensures h == |Block(ls)|
  {
    if |ls| == 0 then 1 else |ls|
  }

  /** Where each import and entry line sits among the module's lines. */
  lemma LinesAt(ls: seq<string>, imports: seq<string>, entries: seq<string>)
    requires ls == Lines(imports, entries)
    ensures |ls| == GroupHeight(imports) + GroupHeight(entries) + 5
    ensures forall i :: 0 <= i < |imports| ==> ls[1 + i] == imports[i]
    ensures forall j :: 0 <= j < |entries| ==> ls[GroupHeight(imports) + 3 + j] == entries[j]
  {
    LayoutAt(ls, Header, imports, "export default {", entries, "}");
  }

  /** Where each import and entry line sits in the layout of the module's
      lines, whatever its header, opener and closer lines. */
  lemma LayoutAt(ls: seq<string>, h: string, imports: seq<string>, o: string, entries: seq<string>, c: string)
    requires ls == [h] + Block(imports) + ["", o] + Block(entries) + [c, ""]
    ensures |ls| == GroupHeight(imports) + GroupHeight(entries) + 5
    ensures forall i :: 0 <= i < |imports| ==> ls[1 + i] == imports[i]
    ensures forall j :: 0 <= j < |entries| ==> ls[GroupHeight(imports) + 3 + j] == entries[j]
  {
    var b := Block(imports);
    var d := Block(entries);
    BlockAt(imports);
    BlockAt(entries);
    GroupsAt([h], b, ["", o], d, [c, ""]);
    forall i | 0 <= i < |imports|
      ensures ls[1 + i] == imports[i]
    {
      assert b[i] == imports[i];
    }
    forall j | 0 <= j < |entries|
      ensures ls[GroupHeight(imports) + 3 + j] == entries[j]
    {
      assert d[j] == entries[j];
      assert ls[1 + |b| + 2 + j] == d[j];
    }
  }

  /** A group's block holds the group's lines, in order. */
  lemma BlockAt(ls: seq<string>)
    ensures |Block(ls)| == GroupHeight(ls) >= |ls|
    ensures forall i :: 0 <= i < |ls| ==> Block(ls)[i] == ls[i]
  {
  }

  /** Positions of the second and fourth of five concatenated groups. */
  lemma GroupsAt(a: seq<string>, b: seq<string>, c: seq<string>, d: seq<string>, e: seq<string>)
    ensures |a + b + c + d + e| == |a| + |b| + |c| + |d| + |e|
    ensures forall i :: 0 <= i < |b| ==> (a + b + c + d + e)[|a| + i] == b[i]
    ensures forall j :: 0 <= j < |d| ==> (a + b + c + d + e)[|a| + |b| + |c| + j] == d[j]
  {
  }

  /** Read line by line, a module rendered from single-line imports and
      entries has one line per import and one per entry (an empty group still
      takes one line) plus five fixed lines: import `i` is line `1 + i`, and
      entry `j` comes after the import block, the empty line and the opener. */
  lemma RenderReadsBack(imports: seq<string>, entries: seq<string>)
    requires AllOneLine(imports) && AllOneLine(entries)
    ensures |Split(Render(imports, entries), '\n')| == GroupHeight(imports) + GroupHeight(entries) + 5
    ensures forall i :: 0 <= i < |imports| ==> Split(Render(imports, entries), '\n')[1 + i] == imports[i]
    ensures forall j :: 0 <= j < |entries| ==>
      Split(Render(imports, entries), '\n')[GroupHeight(imports) + 3 + j] == entries[j]
  {
    RenderLines(imports, entries);
    LinesAt(Split(Render(imports, entries), '\n'), imports, entries);
  }

  /** An identifier is a single line. */
  lemma ImportNameOneLine(index: nat)
    ensures OneLine(ImportName(index))
  {
    var r := ImportName(index);
    forall j | 0 <= j < |r|
      ensures r[j] != '\n'
    {
      if j > 0 {
        assert r[j] == r[1..][j - 1];
      }
    }
  }

  /** The import line of a single-line file path is a single line. */
  lemma ImportLineOneLine(index: nat, file: string)
    requires OneLine(file)
    ensures OneLine(ImportLine(index, file))
  {
    ImportNameOneLine(index);
    ReplaceFirstAddsNoChar(file, ".ts", '\n');
  }

  /** Every assignment the loop performs is of a single-line key and value. */
  lemma AssignmentsOneLine(files: seq<string>)
    requires forall i :: 0 <= i < |files| ==> OneLine(files[i])
    ensures forall i :: 0 <= i < |files| ==>
      OneLine(Assignments(files)[i].0) && OneLine(Assignments(files)[i].1)
  {
    forall i | 0 <= i < |files|
      ensures OneLine(RouteKeyOf(files[i])) && OneLine(ImportName(i))
    {
      RouteKeyAddsNoChar(files[i], '\n');
      ImportNameOneLine(i);
    }
  }

  /** A table built from single-line assignments holds single-line entries. */
  lemma TableOneLine(ps: seq<(K, V)>)
    requires forall i :: 0 <= i < |ps| ==> OneLine(ps[i].0) && OneLine(ps[i].1)
    ensures forall j :: 0 <= j < |Build(ps)| ==> OneLine(Build(ps)[j].0) && OneLine(Build(ps)[j].1)
  {
    BuildEntriesAssigned(ps);
    forall j | 0 <= j < |Build(ps)|
      ensures OneLine(Build(ps)[j].0) && OneLine(Build(ps)[j].1)
    {
      var i :| 0 <= i < |ps| && ps[i] == Build(ps)[j];
    }
  }

  /** Every route key and identifier in the table is a single line. */
  lemma RouteEntriesOneLine(files: seq<string>)
    requires forall i :: 0 <= i < |files| ==> OneLine(files[i])
    ensures forall j :: 0 <= j < |Collect(files).routes| ==>
      OneLine(Collect(files).routes[j].0) && OneLine(Collect(files).routes[j].1)
  {
    CollectRoutes(files);
    AssignmentsOneLine(files);
    TableOneLine(Assignments(files));
  }

  lemma EntryLineOneLine(route: string, id: string)
    requires OneLine(route) && OneLine(id)
    ensures OneLine(EntryLine(route, id))
  {
  }

  /** Every entry line of the route table is a single line. */
  lemma EntryLinesOneLine(files: seq<string>)
    requires forall i :: 0 <= i < |files| ==> OneLine(files[i])
    ensures forall j :: 0 <= j < |Collect(files).routes| ==> OneLine(EntryLines(Collect(files).routes)[j])
  {
    var t := Collect(files).routes;
    RouteEntriesOneLine(files);
    forall j | 0 <= j < |t|
      ensures OneLine(EntryLines(t)[j])
    {
      EntryLineOneLine(t[j].0, t[j].1);
    }
  }

  /** Read line by line, the generated module for single-line file paths is
      the header, one import line per file, an empty line, the export opener,
      one entry line per distinct route key, the closing brace and an empty
      last line. */
  lemma ContentLines(files: seq<string>)
    requires forall i :: 0 <= i < |files| ==> OneLine(files[i])
    ensures Split(Content(files), '\n') == Lines(Collect(files).imports, EntryLines(Collect(files).routes))
  {
    var acc := Collect(files);
    ContentGroupsOneLine(files);
    RenderLines(acc.imports, EntryLines(acc.routes));
  }

  /** Read line by line, the module for single-line paths has file `i`'s
      import line as line `1 + i`, and the line of the `j`th table entry
      after the import block, the empty line and the opener. */
  lemma ContentReadsBack(files: seq<string>)
    requires forall i :: 0 <= i < |files| ==> OneLine(files[i])
    ensures |Split(Content(files), '\n')| == GroupHeight(files) + GroupHeight(EntryLines(Collect(files).routes)) + 5
    ensures forall i :: 0 <= i < |files| ==> Split(Content(files), '\n')[1 + i] == ImportLine(i, files[i])
    ensures forall j :: 0 <= j < |Collect(files).routes| ==>
      Split(Content(files), '\n')[GroupHeight(files) + 3 + j]
        == EntryLine(Collect(files).routes[j].0, Collect(files).routes[j].1)
  {
    var acc := Collect(files);
    ContentGroupsOneLine(files);
    CollectImports(files);
    RenderedReadsBack(files, acc.imports, acc.routes);
  }

  /** The module rendered from the files' import lines and a table's entry
      lines, read line by line, holds file `i`'s import line and the `j`th
      entry's line where `RenderReadsBack` places them. */
  lemma RenderedReadsBack(files: seq<string>, imports: seq<string>, t: Table)
    requires AllOneLine(imports) && AllOneLine(EntryLines(t))
    requires |imports| == |files|
    requires forall i :: 0 <= i < |files| ==> imports[i] == ImportLine(i, files[i])
    ensures |Split(Render(imports, EntryLines(t)), '\n')| == GroupHeight(files) + GroupHeight(EntryLines(t)) + 5
    ensures forall i :: 0 <= i < |files| ==> Split(Render(imports, EntryLines(t)), '\n')[1 + i] == ImportLine(i, files[i])
    ensures forall j :: 0 <= j < |t| ==>
      Split(Render(imports, EntryLines(t)), '\n')[GroupHeight(files) + 3 + j] == EntryLine(t[j].0, t[j].1)
  {
    RenderReadsBack(imports, EntryLines(t));
    GroupHeightSame(imports, files);
    ImportsPlaced(Split(Render(imports, EntryLines(t)), '\n'), files, imports);
    EntriesPlaced(Split(Render(imports, EntryLines(t)), '\n'), imports, files, t);
  }

  /** Lines holding the imports from line 1 on hold each file's import line. */
  lemma ImportsPlaced(ls: seq<string>, files: seq<string>, imports: seq<string>)
    requires |imports| == |files| && |files| < |ls|
    requires forall i :: 0 <= i < |files| ==> imports[i] == ImportLine(i, files[i])
    requires forall i :: 0 <= i < |imports| ==> ls[1 + i] == imports[i]
    ensures forall i :: 0 <= i < |files| ==> ls[1 + i] == ImportLine(i, files[i])
  {
  }

  /** Lines holding a table's entry lines after an import group hold each
      entry's line after any import group of the same height. */
  lemma EntriesPlaced(ls: seq<string>, a: seq<string>, b: seq<string>, t: Table)
    requires GroupHeight(a) == GroupHeight(b)
    requires GroupHeight(a) + 3 + |t| <= |ls|
    requires forall j :: 0 <= j < |EntryLines(t)| ==> ls[GroupHeight(a) + 3 + j] == EntryLines(t)[j]
    ensures forall j :: 0 <= j < |t| ==> ls[GroupHeight(b) + 3 + j] == EntryLine(t[j].0, t[j].1)
  {
    forall j | 0 <= j < |t|
      ensures ls[GroupHeight(b) + 3 + j] == EntryLine(t[j].0, t[j].1)
    {
      assert ls[GroupHeight(a) + 3 + j] == EntryLines(t)[j];
    }
  }

  /** Groups of the same size take the same number of lines. */
  lemma GroupHeightSame(a: seq<string>, b: seq<string>)
    requires |a| == |b|
    ensures GroupHeight(a) == GroupHeight(b)
  {
  }

  /** For single-line paths, every import line and every entry line is a
      single line. */
  lemma ContentGroupsOneLine(files: seq<string>)
    requires forall i :: 0 <= i < |files| ==> OneLine(files[i])
    ensures AllOneLine(Collect(files).imports)
    ensures AllOneLine(EntryLines(Collect(files).routes))
  {
    var acc := Collect(files);
    CollectImports(files);
    forall i | 0 <= i < |acc.imports|
      ensures OneLine(acc.imports[i])
    {
      ImportLineOneLine(i, files[i]);
    }
    EntryLinesOneLine(files);
  }

  /** The generated module's file as the program finds it. */
  datatype FileState = Missing | Present(text: string)

  /** The file after a run, and whether the run wrote it. */
  datatype Outcome = Outcome(after: FileState, wrote: bool)

  /** `fs.readFile` rejects on a missing file, before anything is written. */
  datatype GenerateError = ReadFailed

  /** Lines 40-46: read the current module, and write the new content only
      when it differs. */
  function Generate(current: FileState, files: seq<string>): (r: Result<Outcome, GenerateError>)
    ensures r.Failure? <==> current.Missing?
    ensures r.Success? ==> r.value.after == Present(Content(files))
    ensures r.Success? ==> (r.value.wrote <==> current.text != Content(files))
    ensures r.Success? && !r.value.wrote ==> r.value.after == current
  {
    match current
    case Missing => Failure(ReadFailed)
    case Present(text) =>
      var content := Content(files);
      if text == content then Success(Outcome(current, false))
      else Success(Outcome(Present(content), true))
  }

  /** Running again over the same files finds the file current and writes
      nothing. */
  lemma GenerateIdempotent(current: FileState, files: seq<string>)
    requires Generate(current, files).Success?
    ensures Generate(Generate(current, files).value.after, files) == Success(Outcome(Generate(current, files).value.after, false))
  {
  }

  /** A file that already holds the content is left alone. */
  lemma SkipWhenCurrent(files: seq<string>)
    ensures Generate(Present(Content(files)), files) == Success(Outcome(Present(Content(files)), false))
  {
  }

  /** With no descriptors the module imports nothing and exports an empty map. */
  lemma NoDescriptors()
    ensures Content([]) == Header + "\n\n\nexport default {\n\n}\n"
  {
    assert Collect([]) == Accumulator([], []);
    assert EntryLines([]) == [];
    var nl := "\n";
    assert Content([]) == Header + nl + "" + nl + nl + "export default {" + nl + "" + nl + "}" + nl;
  }
}
