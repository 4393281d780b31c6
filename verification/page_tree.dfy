/**
 The page directory tree the descriptor glob walks: a descriptor lives at
 `client/pages/(main)/<segment>/.../<segment>/metadata.ts`, and each
 directory segment is either a static name or a dynamic `[name]`.
 This module states the route key of every descriptor below valid segments
 (`ValidSegment`) in terms of those segments, independently of the string
 operations that compute it.
 */
module PageTree {
  import opened Strings
  import opened RouteKey

  /** One directory level below the pages root. */
  datatype Segment = Static(name: string) | Dynamic(name: string)

  /** The descriptor file name without its separator. */
  const DescriptorName: string := "metadata.ts"

  /** A directory name is non-empty and free of `/`; a static name has no `[`
      and does not itself begin with the descriptor file name; a dynamic name
      has no `]`. */
  predicate ValidSegment(g: Segment) {
    && |g.name| > 0
    && '/' !in g.name
    && match g
       case Static(n) =>
         '[' !in n && !(|n| >= |DescriptorName| && n[..|DescriptorName|] == DescriptorName)
       case Dynamic(n) => ']' !in n
  }

  predicate ValidTree(segs: seq<Segment>) {
    forall i :: 0 <= i < |segs| ==> ValidSegment(segs[i])
  }

  /** The segment as a directory name on disk. */
  function DirName(g: Segment): string {
    match g
    case Static(n) => n
    case Dynamic(n) => "[" + n + "]"
  }

  /** The segment as it appears in a route key. */
  function RouteName(g: Segment): string {
    match g
    case Static(n) => n
    case Dynamic(n) => ":" + n
  }

  /** `/seg1/seg2/...` as spelled on disk. */
  function Dir(segs: seq<Segment>): string
  {
    if |segs| == 0 then "" else "/" + DirName(segs[0]) + Dir(segs[1..])
  }

  /** `/seg1/seg2/...` as spelled in a route key. */
  function Route(segs: seq<Segment>): string
  {
    if |segs| == 0 then "" else "/" + RouteName(segs[0]) + Route(segs[1..])
  }

  /** Path of the descriptor file below the given directories, as the glob reports it. */
  function DescriptorPath(segs: seq<Segment>): string
  {
    PagesRoot + Dir(segs) + DescriptorSuffix
  }

  /** One segment: the rewrite keeps a static name and turns `[name]` into `:name`. */
  lemma RewriteSegment(g: Segment, rest: string)
    requires ValidSegment(g)
    ensures RewriteParams("/" + DirName(g) + rest) == "/" + RouteName(g) + RewriteParams(rest)
  {
    match g
    case Static(n) =>
      assert "/" + n + rest == ("/" + n) + rest;
      RewritePlain("/" + n, rest);
    case Dynamic(n) =>
      assert "/" + ("[" + n + "]") + rest == "/" + "[" + n + "]" + rest;
      RewriteTextThenParam("/", n, rest);
  }

  /** The rewrite turns each on-disk directory spelling into its route
      spelling, and then carries on with whatever follows. */
  lemma {:induction false} RewriteDir(segs: seq<Segment>, rest: string)
    requires ValidTree(segs)
    ensures RewriteParams(Dir(segs) + rest) == Route(segs) + RewriteParams(rest)
    decreases |segs|
  {
    if |segs| == 0 {
      assert Dir(segs) + rest == rest;
    } else {
      var tail := segs[1..];
      assert ValidTree(tail);
      RewriteDir(tail, rest);
      RewriteDirStep(segs[0], tail, rest);
      assert segs == [segs[0]] + tail;
    }
  }

  /** One more segment in front of directories the rewrite already handles. */
  lemma RewriteDirStep(g: Segment, tail: seq<Segment>, rest: string)
    requires ValidSegment(g)
    requires RewriteParams(Dir(tail) + rest) == Route(tail) + RewriteParams(rest)
    ensures RewriteParams(Dir([g] + tail) + rest) == Route([g] + tail) + RewriteParams(rest)
  {
    var after := Dir(tail) + rest;
    SpellCons(g, tail);
    ConcatAssoc("/" + DirName(g), Dir(tail), rest);
    RewriteSegment(g, after);
    ConcatAssoc("/" + RouteName(g), Route(tail), RewriteParams(rest));
  }

  /** Prepending `/w` to a string free of `/metadata.ts` keeps it free, when
      `w` has no `/`, does not begin with the descriptor file name, and the
      string is empty or begins with `/`. */
  lemma NoSuffixAcross(w: string, r: string)
    requires |w| > 0 && '/' !in w
    requires !(|w| >= |DescriptorName| && w[..|DescriptorName|] == DescriptorName)
    requires r == "" || r[0] == '/'
    requires !Contains(r, DescriptorSuffix)
    ensures !Contains("/" + w + r, DescriptorSuffix)
  {
    var s := "/" + w + r;
    var m := |DescriptorSuffix|;
    SuffixSlashOnlyFirst();
    assert DescriptorSuffix[1..] == DescriptorName;
    forall i: nat
      ensures !OccursAt(s, DescriptorSuffix, i)
    {
      if i + m <= |s| {
        var window := s[i..i + m];
        if i == 0 {
          if |w| >= m - 1 {
            forall t | 1 <= t < m
              ensures window[t] == w[t - 1]
            {
              assert window[t] == s[t];
              assert s[t] == ("/" + w)[t];
            }
            assert window[1..] == w[..m - 1];
          } else {
            assert s[1 + |w|] == r[0];
            assert window[1 + |w|] == '/';
          }
        } else if i <= |w| {
          assert window[0] == w[i - 1];
        } else {
          var k := i - 1 - |w|;
          assert s[i..i + m] == r[k..k + m];
          assert !OccursAt(r, DescriptorSuffix, k);
        }
      }
    }
  }

  /** A directory path of valid segments never contains `/metadata.ts`. */
  lemma {:induction false} NoSuffixInDir(segs: seq<Segment>)
    requires ValidTree(segs)
    ensures !Contains(Dir(segs), DescriptorSuffix)
    decreases |segs|
  {
    if |segs| > 0 {
      var w := DirName(segs[0]);
      var r := Dir(segs[1..]);
      NoSuffixInDir(segs[1..]);
      assert '/' !in w && |w| > 0 && !(|w| >= |DescriptorName| && w[..|DescriptorName|] == DescriptorName) by {
        match segs[0]
        case Static(n) =>
        case Dynamic(n) => assert w == "[" + n + "]" && w[0] == '[';
      }
      NoSuffixAcross(w, r);
    }
  }

  /** The route key of the descriptor below valid directories is the route
      spelling of those directories: the root descriptor gives the empty key,
      and `client/pages/(main)/a/[b]/metadata.ts` gives `/a/:b`. */
  lemma RouteKeyOfTree(segs: seq<Segment>)
    requires ValidTree(segs)
    ensures RouteKeyOf(DescriptorPath(segs)) == Route(segs)
  {
    if |segs| == 0 {
      assert DescriptorPath(segs) == PagesRoot + DescriptorSuffix;
      RootRouteKey();
    } else {
      var p := DirName(segs[0]) + Dir(segs[1..]);
      assert Dir(segs) == "/" + p;
      assert DescriptorPath(segs) == PagesRoot + "/" + p + DescriptorSuffix;
      NoSuffixInDir(segs);
      NestedRouteKey(p);
      RewriteDir(segs, "");
      assert Dir(segs) + "" == Dir(segs);
    }
  }

  /** Spelling a tree one segment at a time. */
  lemma SpellCons(g: Segment, rest: seq<Segment>)
    ensures Dir([g] + rest) == "/" + DirName(g) + Dir(rest)
    ensures Route([g] + rest) == "/" + RouteName(g) + Route(rest)
  {
    assert ([g] + rest)[1..] == rest;
  }

  /** Spelling a tree in two parts. */
  lemma {:induction false} SpellAppend(s: seq<Segment>, t: seq<Segment>)
    ensures Dir(s + t) == Dir(s) + Dir(t)
    ensures Route(s + t) == Route(s) + Route(t)
  {
    if |s| == 0 {
      assert s + t == t;
    } else {
      var g := s[0];
      var s' := s[1..];
      assert s == [g] + s';
      assert s + t == [g] + (s' + t);
      SpellCons(g, s' + t);
      SpellCons(g, s');
      SpellAppend(s', t);
      ConcatAssoc("/" + DirName(g), Dir(s'), Dir(t));
      ConcatAssoc("/" + RouteName(g), Route(s'), Route(t));
    }
  }

  /** A static directory followed by a dynamic one, as `users/[id]` or `orgs/[org]`. */
  function ParamPair(a: string, x: string): seq<Segment> {
    [Static(a), Dynamic(x)]
  }

  lemma ParamPairSpelling(a: string, x: string)
    ensures Dir(ParamPair(a, x)) == "/" + a + "/[" + x + "]"
    ensures Route(ParamPair(a, x)) == "/" + a + "/:" + x
  {
    SpellCons(Dynamic(x), []);
    SpellCons(Static(a), [Dynamic(x)]);
    assert ParamPair(a, x) == [Static(a)] + [Dynamic(x)];
  }

  /** `client/pages/(main)/users/[<id>]/metadata.ts` has the route key
      `/users/:<id>`, for every parameter name `id`. */
  lemma UsersExample(id: string)
    requires |id| > 0 && ']' !in id && '/' !in id
    ensures DescriptorPath(ParamPair("users", id)) == PagesRoot + ("/" + "users" + "/[" + id + "]") + DescriptorSuffix
    ensures RouteKeyOf(DescriptorPath(ParamPair("users", id))) == "/" + "users" + "/:" + id
  {
    var segs := ParamPair("users", id);
    assert ValidSegment(segs[0]);
    RouteKeyOfTree(segs);
    ParamPairSpelling("users", id);
  }

  /** Each bracketed segment is rewritten on its own: the descriptor
      `client/pages/(main)/<a>/[<x>]/<b>/[<y>]/metadata.ts`, as
      `.../orgs/[org]/repos/[repo]/metadata.ts`, has the route key
      `/<a>/:<x>/<b>/:<y>`. */
  lemma TwoParamExample(a: string, x: string, b: string, y: string)
    requires ValidTree(ParamPair(a, x) + ParamPair(b, y))
    ensures DescriptorPath(ParamPair(a, x) + ParamPair(b, y))
         == PagesRoot + (("/" + a + "/[" + x + "]") + ("/" + b + "/[" + y + "]")) + DescriptorSuffix
    ensures RouteKeyOf(DescriptorPath(ParamPair(a, x) + ParamPair(b, y)))
         == ("/" + a + "/:" + x) + ("/" + b + "/:" + y)
  {
    RouteKeyOfTree(ParamPair(a, x) + ParamPair(b, y));
    SpellAppend(ParamPair(a, x), ParamPair(b, y));
    ParamPairSpelling(a, x);
    ParamPairSpelling(b, y);
  }

  /** Bracket-free text after the directories passes the rewrite unchanged. */
  lemma RewriteDirThenPlain(segs: seq<Segment>, t: string)
    requires ValidTree(segs) && '[' !in t
    ensures RewriteParams(Dir(segs) + t) == Route(segs) + t
  {
    RewriteDir(segs, t);
    RewritePlain(t, "");
    assert t + "" == t;
  }

  /** Removing two prefixes in turn leaves the rest. */
  lemma StripTwoPrefixes(p: string, q: string, d: string)
    ensures ReplaceFirst(ReplaceFirst(p + q + d, p, ""), q, "") == d
  {
    ReplacePrefix(p + q + d, p);
    assert (p + q + d)[|p|..] == q + d;
    ReplacePrefix(q + d, q);
    assert (q + d)[|q|..] == d;
  }

  /** Below a leading `/metadata.ts`, the removals take exactly the root and that. */
  lemma KeyAfterLeadingSuffix(t: string, key: string)
    requires RewriteParams(t) == key
    ensures RouteKeyOf(PagesRoot + DescriptorSuffix + t) == key
  {
    StripTwoPrefixes(PagesRoot, DescriptorSuffix, t);
    RouteKeyOfStripped(PagesRoot + DescriptorSuffix + t, t);
  }

  /** A directory literally named `metadata.ts` directly below the pages
      root breaks the suffix removal: the first `/metadata.ts` is that
      directory, so it is the one removed, and the descriptor's own file name
      stays at the end of the key. This is why `ValidSegment` rules such a
      directory out. */
  lemma MetadataDirectoryKey(segs: seq<Segment>)
    requires ValidTree(segs)
    ensures RouteKeyOf(PagesRoot + DescriptorSuffix + (Dir(segs) + DescriptorSuffix))
         == Route(segs) + DescriptorSuffix
  {
    var t := Dir(segs) + DescriptorSuffix;
    RewriteDirThenPlain(segs, DescriptorSuffix);
    KeyAfterLeadingSuffix(t, Route(segs) + DescriptorSuffix);
  }

  /** A static directory named `:x` and a dynamic directory `[x]` are two
      different directories with the same route key, so their descriptors
      compete for one entry of the route table. */
  lemma ColonDirectoryCollides(x: string)
    requires ValidTree([Static(":" + x)]) && ValidTree([Dynamic(x)])
    ensures DescriptorPath([Static(":" + x)]) != DescriptorPath([Dynamic(x)])
    ensures RouteKeyOf(DescriptorPath([Static(":" + x)])) == RouteKeyOf(DescriptorPath([Dynamic(x)]))
  {
    RouteKeyOfTree([Static(":" + x)]);
    RouteKeyOfTree([Dynamic(x)]);
    var p := PagesRoot + "/";
    assert DescriptorPath([Static(":" + x)])[|p|] == ':';
    assert DescriptorPath([Dynamic(x)])[|p|] == '[';
  }
}
