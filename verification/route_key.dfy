/**
 Route-key derivation: a descriptor path such as
 `client/pages/(main)/users/[id]/metadata.ts` becomes `/users/:id`.
 The three steps are the two first-occurrence `replace` calls and the global
 regular-expression rewrite `/\[([^\]]+)\]/g` to `:$1`.
 */
module RouteKey {
  import opened Strings

  /** The directory the descriptor glob is rooted at. */
  const PagesRoot: string := "client/pages/(main)"

  /** The descriptor file name together with its leading separator. */
  const DescriptorSuffix: string := "/metadata.ts"

  /** Length of the longest prefix of `s` free of `]`: the run the capture
      group `[^\]]+` can consume. */
  function NameRun(s: string): (n: nat)
    ensures n <= |s|
    decreases |s|
  {
    if |s| == 0 || s[0] == ']' then 0 else 1 + NameRun(s[1..])
  }

  /** The run stops exactly at the first `]`, if there is one. */
  lemma {:induction false} NameRunStops(s: string)
    ensures forall j :: 0 <= j < NameRun(s) ==> s[j] != ']'
    ensures NameRun(s) < |s| ==> s[NameRun(s)] == ']'
    decreases |s|
  {
    if |s| > 0 && s[0] != ']' {
      NameRunStops(s[1..]);
    }
  }

  /** A name free of `]` followed by `]` is consumed whole. */
  lemma {:induction false} NameRunOfName(name: string, rest: string)
    requires ']' !in name
    ensures NameRun(name + "]" + rest) == |name|
    decreases |name|
  {
    if |name| > 0 {
      assert (name + "]" + rest)[1..] == name[1..] + "]" + rest;
      NameRunOfName(name[1..], rest);
    }
  }

  /** The pattern `/\[([^\]]+)\]/g` replaced by `:$1`, scanned left to right.
      At a `[` the pattern matches exactly when a `]` follows and the run of
      non-`]` characters before it is non-empty (the capture cannot pass a
      `]`, so the match ends at the first one); scanning resumes after it.
      Anywhere else the scan keeps one character and moves on. */
  function RewriteParams(s: string): (r: string)
    ensures |r| <= |s|
    ensures |r| == 0 <==> |s| == 0
    decreases |s|
  {
    if |s| == 0 then ""
    else if s[0] == '[' then
      var n := NameRun(s[1..]);
      if 0 < n < |s| - 1 then
        ":" + s[1..n + 1] + RewriteParams(s[n + 2..])
      else
        "[" + RewriteParams(s[1..])
    else
      [s[0]] + RewriteParams(s[1..])
  }

  /** The rewrite only drops brackets and adds colons: every other character
      occurs in the result exactly when it occurs in the input. */
  lemma {:induction false} RewriteKeepsChar(s: string, c: char)
    requires c != '[' && c != ']' && c != ':'
    ensures c in RewriteParams(s) <==> c in s
    decreases |s|
  {
    if |s| > 0 {
      var r := RewriteParams(s);
      if s[0] == '[' {
        var n := NameRun(s[1..]);
        if 0 < n < |s| - 1 {
          var name := s[1..n + 1];
          var rest := s[n + 2..];
          NameRunStops(s[1..]);
          assert s[n + 1] == ']';
          assert s[..n + 2] == [s[0]] + name + [s[n + 1]];
          assert s == s[..n + 2] + rest;
          assert r == ":" + name + RewriteParams(rest);
          RewriteKeepsChar(rest, c);
        } else {
          assert s == [s[0]] + s[1..];
          assert r == "[" + RewriteParams(s[1..]);
          RewriteKeepsChar(s[1..], c);
        }
      } else {
        assert s == [s[0]] + s[1..];
        assert r == [s[0]] + RewriteParams(s[1..]);
        RewriteKeepsChar(s[1..], c);
      }
    }
  }

  /** Route key of one discovered descriptor file (lines 20-23). */
  function RouteKeyOf(file: string): string
  {
    RewriteParams(ReplaceFirst(ReplaceFirst(file, PagesRoot, ""), DescriptorSuffix, ""))
  }

  /** The route key is the rewrite of whatever the two removals leave. */
  lemma RouteKeyOfStripped(file: string, t: string)
    requires ReplaceFirst(ReplaceFirst(file, PagesRoot, ""), DescriptorSuffix, "") == t
    ensures RouteKeyOf(file) == RewriteParams(t)
  {
  }

  /** The route key is what the two removals leave, read as pieces: each
      `[name]` spelled `:name`, every other piece and the unclosed tail kept. */
  lemma RouteKeyOfPieces(file: string)
    ensures var t := ReplaceFirst(ReplaceFirst(file, PagesRoot, ""), DescriptorSuffix, "");
            RouteKeyOf(file) == InRoute(ReadPieces(t).0) + ReadPieces(t).1
  {
    var t := ReplaceFirst(ReplaceFirst(file, PagesRoot, ""), DescriptorSuffix, "");
    RouteKeyOfStripped(file, t);
    RewriteByPieces(t);
  }

  /** One unit of a page directory path: a literal character, a dynamic
      segment `[name]`, or the literal pair `[]`, which the pattern leaves alone. */
  datatype Piece = Literal(c: char) | Param(name: string) | EmptyBrackets

  /** The pieces a directory path is built from: a literal is never an opening
      bracket, a parameter name is non-empty and holds no closing bracket. */
  predicate WellFormed(p: Piece) {
    match p
    case Literal(c) => c != '['
    case Param(name) => |name| > 0 && ']' !in name
    case EmptyBrackets => true
  }

  /** How a piece is spelled on disk. */
  function PieceOnDisk(p: Piece): string {
    match p
    case Literal(c) => [c]
    case Param(name) => "[" + name + "]"
    case EmptyBrackets => "[]"
  }

  /** How a piece is spelled in a route key. */
  function PieceInRoute(p: Piece): string {
    match p
    case Literal(c) => [c]
    case Param(name) => ":" + name
    case EmptyBrackets => "[]"
  }

  function OnDisk(ps: seq<Piece>): string
  {
    if |ps| == 0 then "" else PieceOnDisk(ps[0]) + OnDisk(ps[1..])
  }

  function InRoute(ps: seq<Piece>): string
  {
    if |ps| == 0 then "" else PieceInRoute(ps[0]) + InRoute(ps[1..])
  }

  /** Spelling a piece sequence one piece at a time. */
  lemma PiecesCons(p: Piece, ps: seq<Piece>)
    ensures OnDisk([p] + ps) == PieceOnDisk(p) + OnDisk(ps)
    ensures InRoute([p] + ps) == PieceInRoute(p) + InRoute(ps)
  {
    assert ([p] + ps)[1..] == ps;
  }

  /** Every bracketed segment on disk becomes a `:name` parameter in the route,
      one rewrite per segment, and everything else is kept as it is; the scan
      then carries on with whatever follows. */
  lemma {:induction false} RewriteOnDiskThen(ps: seq<Piece>, tail: string)
    requires forall i :: 0 <= i < |ps| ==> WellFormed(ps[i])
    ensures RewriteParams(OnDisk(ps) + tail) == InRoute(ps) + RewriteParams(tail)
    decreases |ps|
  {
    if |ps| == 0 {
      assert OnDisk(ps) + tail == tail;
    } else {
      var p := ps[0];
      var rest := OnDisk(ps[1..]) + tail;
      RewriteOnDiskThen(ps[1..], tail);
      PiecesCons(p, ps[1..]);
      assert ps == [p] + ps[1..];
      ConcatAssoc(PieceOnDisk(p), OnDisk(ps[1..]), tail);
      ConcatAssoc(PieceInRoute(p), InRoute(ps[1..]), RewriteParams(tail));
      match p
      case Literal(c) =>
        RewritePlain([c], rest);
      case Param(name) =>
        RewriteParamFirst(name, rest);
      case EmptyBrackets =>
        EmptyBracketsKept(rest);
    }
  }

  /** A text made of well-formed pieces is rewritten piece by piece. */
  lemma RewriteOnDisk(ps: seq<Piece>)
    requires forall i :: 0 <= i < |ps| ==> WellFormed(ps[i])
    ensures RewriteParams(OnDisk(ps)) == InRoute(ps)
  {
    RewriteOnDiskThen(ps, "");
    assert OnDisk(ps) + "" == OnDisk(ps);
    assert InRoute(ps) + "" == InRoute(ps);
  }

  /** Reads any text as well-formed pieces followed by a tail that holds no
      `]`: at a `[` with no `]` anywhere after it, the rest is the tail. */
  function ReadPieces(s: string): (seq<Piece>, string)
    decreases |s|
  {
    if |s| == 0 then ([], "")
    else if s[0] == '[' then
      var n := NameRun(s[1..]);
      if n == |s| - 1 then ([], s)
      else if n == 0 then
        var r := ReadPieces(s[2..]);
        ([EmptyBrackets] + r.0, r.1)
      else
        var r := ReadPieces(s[n + 2..]);
        ([Param(s[1..n + 1])] + r.0, r.1)
    else
      var r := ReadPieces(s[1..]);
      ([Literal(s[0])] + r.0, r.1)
  }

  /** `ps` spelled on disk followed by `tail` is `s`, every piece is
      well-formed and the tail holds no `]`. */
  predicate IsReading(s: string, ps: seq<Piece>, tail: string) {
    && OnDisk(ps) + tail == s
    && (forall i :: 0 <= i < |ps| ==> WellFormed(ps[i]))
    && ']' !in tail
  }

  /** A well-formed piece in front of a reading gives a reading. */
  lemma ReadingCons(p: Piece, rest: string, ps: seq<Piece>, tail: string)
    requires WellFormed(p) && IsReading(rest, ps, tail)
    ensures IsReading(PieceOnDisk(p) + rest, [p] + ps, tail)
  {
    PiecesCons(p, ps);
    ConcatAssoc(PieceOnDisk(p), OnDisk(ps), tail);
    forall i | 0 <= i < |[p] + ps|
      ensures WellFormed(([p] + ps)[i])
    {
      if i > 0 {
        assert ([p] + ps)[i] == ps[i - 1];
      }
    }
  }

  /** Every text has a reading, and `ReadPieces` finds one. */
  lemma {:induction false} ReadPiecesSound(s: string)
    ensures IsReading(s, ReadPieces(s).0, ReadPieces(s).1)
    decreases |s|, 2
  {
    if |s| == 0 {
      assert OnDisk([]) + "" == s;
    } else if s[0] == '[' {
      ReadBracket(s);
    } else {
      var r := ReadPieces(s[1..]);
      ReadPiecesSound(s[1..]);
      assert ReadPieces(s) == ([Literal(s[0])] + r.0, r.1);
      assert s == [s[0]] + s[1..];
      ReadingCons(Literal(s[0]), s[1..], r.0, r.1);
    }
  }

  /** The reading at an opening bracket: the tail, `[]`, or a parameter. */
  lemma {:induction false} ReadBracket(s: string)
    requires |s| > 0 && s[0] == '['
    ensures IsReading(s, ReadPieces(s).0, ReadPieces(s).1)
    decreases |s|, 1
  {
    var n := NameRun(s[1..]);
    if n == |s| - 1 {
      ReadOpenTail(s);
    } else if n == 0 {
      ReadEmptyBrackets(s);
    } else {
      ReadParam(s);
    }
  }

  /** No `]` follows the bracket: the whole text is the tail. */
  lemma ReadOpenTail(s: string)
    requires |s| > 0 && s[0] == '[' && NameRun(s[1..]) == |s| - 1
    ensures IsReading(s, ReadPieces(s).0, ReadPieces(s).1)
  {
    NameRunStops(s[1..]);
    assert ReadPieces(s) == ([], s);
    assert s == [s[0]] + s[1..];
    assert OnDisk([]) + s == s;
  }

  /** A `]` right after the bracket: the piece `[]`. */
  lemma {:induction false} ReadEmptyBrackets(s: string)
    requires |s| > 0 && s[0] == '[' && NameRun(s[1..]) == 0 < |s| - 1
    ensures IsReading(s, ReadPieces(s).0, ReadPieces(s).1)
    decreases |s|, 0
  {
    NameRunStops(s[1..]);
    var r := ReadPieces(s[2..]);
    ReadPiecesSound(s[2..]);
    assert ReadPieces(s) == ([EmptyBrackets] + r.0, r.1);
    assert s[1] == ']';
    assert s == "[]" + s[2..];
    ReadingCons(EmptyBrackets, s[2..], r.0, r.1);
  }

  /** A non-empty run before the first `]`: the piece `[name]`. */
  lemma {:induction false} ReadParam(s: string)
    requires |s| > 0 && s[0] == '[' && 0 < NameRun(s[1..]) < |s| - 1
    ensures IsReading(s, ReadPieces(s).0, ReadPieces(s).1)
    decreases |s|, 0
  {
    var n := NameRun(s[1..]);
    var name := s[1..n + 1];
    var rest := s[n + 2..];
    var r := ReadPieces(rest);
    ReadPiecesSound(rest);
    assert ReadPieces(s) == ([Param(name)] + r.0, r.1);
    ParamAt(s, n);
    ReadingCons(Param(name), rest, r.0, r.1);
  }

  /** Where the run before the first `]` is `n` long, the text is `[`, the
      run, that `]`, and the rest. */
  lemma ParamAt(s: string, n: nat)
    requires |s| > 0 && s[0] == '[' && n == NameRun(s[1..]) < |s| - 1
    ensures ']' !in s[1..n + 1]
    ensures s == "[" + s[1..n + 1] + "]" + s[n + 2..]
  {
    NameRunStops(s[1..]);
    var name := s[1..n + 1];
    assert forall j :: 0 <= j < |name| ==> name[j] == s[1..][j];
    assert s[n + 1] == s[1..][n] == ']';
    assert s[..n + 2] == "[" + name + "]";
    assert s == s[..n + 2] + s[n + 2..];
  }

  /** The rewrite of any text is the route spelling of its pieces followed by
      its tail, unchanged. */
  lemma RewriteByPieces(s: string)
    ensures RewriteParams(s) == InRoute(ReadPieces(s).0) + ReadPieces(s).1
  {
    var r := ReadPieces(s);
    ReadPiecesSound(s);
    RewriteOnDiskThen(r.0, r.1);
    NoCloseUnchanged(r.1);
  }

  /** Text without an opening bracket passes the rewrite unchanged. */
  lemma {:induction false} RewritePlain(a: string, b: string)
    requires '[' !in a
    ensures RewriteParams(a + b) == a + RewriteParams(b)
    decreases |a|
  {
    if |a| == 0 {
      assert a + b == b;
    } else {
      var s := a + b;
      assert s[0] == a[0] && s[0] != '[';
      assert s[1..] == a[1..] + b;
      assert RewriteParams(s) == [a[0]] + RewriteParams(a[1..] + b);
      RewritePlain(a[1..], b);
      assert a == [a[0]] + a[1..];
    }
  }

  /** Only `/` starts the suffix pattern. */
  lemma SuffixSlashOnlyFirst()
    ensures DescriptorSuffix[0] == '/'
    ensures forall t :: 0 < t < |DescriptorSuffix| ==> DescriptorSuffix[t] != '/'
  {
  }

  /** Removing a string's own prefix leaves the rest. */
  lemma ReplacePrefix(s: string, p: string)
    requires |p| <= |s| && s[..|p|] == p
    ensures ReplaceFirst(s, p, "") == s[|p|..]
  {
    assert IsFirstOccurrence(s, p, 0);
  }

  /** The root descriptor maps to the empty route key. */
  lemma RootRouteKey()
    ensures RouteKeyOf(PagesRoot + DescriptorSuffix) == ""
  {
    var f := PagesRoot + DescriptorSuffix;
    ReplacePrefix(f, PagesRoot);
    assert f[|PagesRoot|..] == DescriptorSuffix;
    ReplacePrefix(DescriptorSuffix, DescriptorSuffix);
  }

  /** `client/pages/(main)/P/metadata.ts` maps to `/P` with its brackets
      rewritten, provided `/P` holds no `/metadata.ts` of its own. */
  lemma NestedRouteKey(p: string)
    requires !Contains("/" + p, DescriptorSuffix)
    ensures RouteKeyOf(PagesRoot + "/" + p + DescriptorSuffix) == RewriteParams("/" + p)
  {
    var f := PagesRoot + "/" + p + DescriptorSuffix;
    var s1 := "/" + p + DescriptorSuffix;
    ReplacePrefix(f, PagesRoot);
    assert f[|PagesRoot|..] == s1;
    var k := |p| + 1;
    assert OccursAt(s1, DescriptorSuffix, k) by {
      assert s1[k..k + |DescriptorSuffix|] == DescriptorSuffix;
    }
    forall j: nat | j < k
      ensures !OccursAt(s1, DescriptorSuffix, j)
    {
      if j + |DescriptorSuffix| <= k {
        assert ("/" + p)[j..j + |DescriptorSuffix|] == s1[j..j + |DescriptorSuffix|];
        assert !OccursAt("/" + p, DescriptorSuffix, j);
      } else if j + |DescriptorSuffix| <= |s1| {
        SuffixSlashOnlyFirst();
        assert s1[k] == '/';
        assert s1[j..j + |DescriptorSuffix|][k - j] == s1[k];
        assert DescriptorSuffix[k - j] != '/';
      }
    }
    assert IsFirstOccurrence(s1, DescriptorSuffix, k);
    assert s1[..k] + s1[k + |DescriptorSuffix|..] == "/" + p;
  }

  /** Deriving the route key introduces no character other than `:`: in
      particular a path without brackets gives a key without them. */
  lemma RouteKeyAddsNoChar(file: string, c: char)
    requires c !in file && c != ':'
    ensures c !in RouteKeyOf(file)
  {
    var s1 := ReplaceFirst(file, PagesRoot, "");
    var t := ReplaceFirst(s1, DescriptorSuffix, "");
    ReplaceFirstAddsNoChar(file, PagesRoot, c);
    ReplaceFirstAddsNoChar(s1, DescriptorSuffix, c);
    RouteKeyOfStripped(file, t);
    if c == '[' {
      NoOpenUnchanged(t);
    } else if c == ']' {
      NoCloseUnchanged(t);
    } else {
      RewriteKeepsChar(t, c);
    }
  }

  /** Text without `[` is left unchanged by the rewrite. */
  lemma NoOpenUnchanged(s: string)
    requires '[' !in s
    ensures RewriteParams(s) == s
  {
    RewritePlain(s, "");
    assert s + "" == s;
  }

  /** Without a `]` the capture run reaches the end of the text. */
  lemma {:induction false} NameRunNoClose(s: string)
    requires ']' !in s
    ensures NameRun(s) == |s|
    decreases |s|
  {
    if |s| > 0 {
      assert ']' !in s[1..];
      NameRunNoClose(s[1..]);
    }
  }

  /** Text without `]` is left unchanged: an opening bracket with no closing
      one after it never starts a match. */
  lemma {:induction false} NoCloseUnchanged(s: string)
    requires ']' !in s
    ensures RewriteParams(s) == s
    decreases |s|
  {
    if |s| > 0 {
      assert ']' !in s[1..];
      NoCloseUnchanged(s[1..]);
      if s[0] == '[' {
        NameRunNoClose(s[1..]);
      }
      assert s == [s[0]] + s[1..];
    }
  }

  /** A dynamic segment at the front is rewritten and the scan resumes after it. */
  lemma RewriteParamFirst(name: string, rest: string)
    requires |name| > 0 && ']' !in name
    ensures RewriteParams("[" + name + "]" + rest) == ":" + name + RewriteParams(rest)
  {
    var s := "[" + name + "]" + rest;
    assert s[1..] == name + "]" + rest;
    NameRunOfName(name, rest);
    assert s[1..|name| + 1] == name;
    assert s[|name| + 2..] == rest;
  }

  /** Plain text followed by one dynamic segment: the text is kept and the
      segment becomes a parameter. */
  lemma RewriteTextThenParam(text: string, name: string, rest: string)
    requires '[' !in text && |name| > 0 && ']' !in name
    ensures RewriteParams(text + "[" + name + "]" + rest) == text + ":" + name + RewriteParams(rest)
  {
    assert text + "[" + name + "]" + rest == text + ("[" + name + "]" + rest);
    RewritePlain(text, "[" + name + "]" + rest);
    RewriteParamFirst(name, rest);
  }

  /** An empty pair of brackets is not a parameter and stays as written. */
  lemma EmptyBracketsKept(s: string)
    ensures RewriteParams("[]" + s) == "[]" + RewriteParams(s)
  {
    var t := "[]" + s;
    var u := "]" + s;
    assert t[0] == '[' && t[1..] == u;
    assert u[0] == ']' && u[1..] == s;
    assert NameRun(u) == 0;
    assert RewriteParams(t) == "[" + RewriteParams(u);
    assert RewriteParams(u) == "]" + RewriteParams(s);
    ConcatAssoc("[", "]", RewriteParams(s));
  }

  /** What the glob `./client/pages/(main)/**/metadata.ts` can report: the
      pages root, a separator, and a path ending in `/metadata.ts`. */
  predicate IsDescriptorPath(file: string) {
    && |file| >= |PagesRoot| + |DescriptorSuffix|
    && file[..|PagesRoot| + 1] == PagesRoot + "/"
    && file[|file| - |DescriptorSuffix|..] == DescriptorSuffix
  }

  /** A key JavaScript would order before all others in an object (an
      integer-like property name), or the special `__proto__` property, which
      an assignment would not add as an entry at all. */
  predicate IsSpecialPropertyName(k: string) {
    (|k| > 0 && forall i :: 0 <= i < |k| ==> '0' <= k[i] <= '9') || k == "__proto__"
  }

  /** A string that starts with `p` and a separator keeps the separator first
      once `p` is removed. */
  lemma RemoveRootKeepsSeparator(file: string, p: string)
    requires |file| > |p| && file[..|p| + 1] == p + "/"
    ensures ReplaceFirst(file, p, "") == file[|p|..]
    ensures file[|p|..][0] == '/'
  {
    assert file[..|p|] == file[..|p| + 1][..|p|] == p;
    ReplacePrefix(file, p);
    assert file[|p|] == file[..|p| + 1][|p|] == (p + "/")[|p|];
  }

  /** A suffix that begins with its only `/`, as `/metadata.ts` does. */
  predicate SlashLed(q: string) {
    |q| >= 1 && q[0] == '/' && forall t :: 0 < t < |q| ==> q[t] != '/'
  }

  /** A slash-led suffix that starts a string cannot reappear before its
      own end. */
  lemma SlashLedApart(s: string, q: string, k: nat)
    requires SlashLed(q)
    requires |q| <= |s| && s[..|q|] == q
    requires 0 < k < |s| && s[k] == '/'
    ensures k >= |q|
  {
    forall j | 0 < j < |q|
      ensures s[j] != '/'
    {
      assert s[j] == s[..|q|][j];
    }
  }

  /** A string that starts with `/` and ends with such a suffix keeps a `/`
      after the first occurrence of the suffix is removed, unless nothing is
      left. */
  lemma RemoveSuffixKeepsSlash(s: string, q: string)
    requires SlashLed(q)
    requires |s| >= |q| && s[0] == '/'
    requires s[|s| - |q|..] == q
    ensures var t := ReplaceFirst(s, q, ""); t == "" || '/' in t
  {
    var m := |q|;
    var k := |s| - m;
    assert OccursAt(s, q, k);
    RemoveFirstAt(s, q, k);
    var i := IndexOf(s, q).value;
    var t := s[..i] + s[i + m..];
    if i > 0 {
      assert t[0] == s[0];
    } else if k > 0 {
      assert s[k] == s[k..][0];
      SlashLedApart(s, q, k);
      assert t[k - m] == s[k];
    }
  }

  /** Removing a root `p` and then the first slash-led suffix `q` from
      `p + "/" + ... + q` leaves either nothing or a string holding a `/`. */
  lemma StripKeepsSlash(file: string, p: string, q: string)
    requires SlashLed(q)
    requires |file| >= |p| + |q| && file[..|p| + 1] == p + "/"
    requires file[|file| - |q|..] == q
    ensures var t := ReplaceFirst(ReplaceFirst(file, p, ""), q, ""); t == "" || '/' in t
  {
    RemoveRootKeepsSeparator(file, p);
    var s1 := file[|p|..];
    assert ReplaceFirst(file, p, "") == s1;
    assert |s1| >= |q| && s1[0] == '/';
    assert s1[|s1| - |q|..] == file[|file| - |q|..] == q;
    RemoveSuffixKeepsSlash(s1, q);
  }

  /** Removing the root and then the first `/metadata.ts` from a descriptor
      path leaves either nothing or a string that still contains a `/`. */
  lemma StrippedKeepsSlash(file: string)
    requires IsDescriptorPath(file)
    ensures var t := ReplaceFirst(ReplaceFirst(file, PagesRoot, ""), DescriptorSuffix, "");
            t == "" || '/' in t
  {
    SuffixSlashOnlyFirst();
    StripKeepsSlash(file, PagesRoot, DescriptorSuffix);
  }

  /** No descriptor path yields a route key that a JavaScript object would
      treat specially, so the route table keeps plain insertion order. */
  lemma RouteKeyNotSpecial(file: string)
    requires IsDescriptorPath(file)
    ensures !IsSpecialPropertyName(RouteKeyOf(file))
  {
    var t := ReplaceFirst(ReplaceFirst(file, PagesRoot, ""), DescriptorSuffix, "");
    StrippedKeepsSlash(file);
    RewriteKeepsChar(t, '/');
    var k := RouteKeyOf(file);
    if k != "" {
      assert '/' in k;
      var j :| 0 <= j < |k| && k[j] == '/';
      assert k != "__proto__";
    }
  }
}
