/**
 The JavaScript string operations the generator relies on: `indexOf`,
 `replace` with a string pattern (first occurrence only), `Array.join`
 and `String.split` on a single character.
 */
module Strings {
  import opened Wrappers

  /** `p` occurs in `s` starting at index `i`. */
  predicate OccursAt(s: string, p: string, i: nat) {
    i + |p| <= |s| && s[i..i + |p|] == p
  }

  /** `p` occurs somewhere in `s`. */
  ghost predicate Contains(s: string, p: string) {
    exists i: nat :: OccursAt(s, p, i)
  }

  /** `i` is the leftmost occurrence of `p` in `s`. */
  ghost predicate IsFirstOccurrence(s: string, p: string, i: nat) {
    OccursAt(s, p, i) && forall j: nat :: j < i ==> !OccursAt(s, p, j)
  }

  /** The leftmost occurrence of `p` in `s` is unique. */
  lemma FirstOccurrenceUnique(s: string, p: string, i: nat, j: nat)
    requires IsFirstOccurrence(s, p, i) && IsFirstOccurrence(s, p, j)
    ensures i == j
  {
  }

  /** Index of the leftmost occurrence of `p` in `s` at or after `from`. */
  function FindFrom(s: string, p: string, from: nat): (r: Option<nat>)
    ensures r.Some? ==> from <= r.value && OccursAt(s, p, r.value)
    ensures r.Some? ==> forall j: nat :: from <= j < r.value ==> !OccursAt(s, p, j)
    ensures r.None? ==> forall j: nat :: from <= j ==> !OccursAt(s, p, j)
    decreases |s| - from
  {
    if from + |p| > |s| then None
    else if s[from..from + |p|] == p then Some(from)
    else FindFrom(s, p, from + 1)
  }

  /** JavaScript `s.indexOf(p)`, with `None` for -1. */
  function IndexOf(s: string, p: string): (r: Option<nat>)
    ensures r.Some? <==> Contains(s, p)
    ensures r.Some? ==> IsFirstOccurrence(s, p, r.value)
  {
    FindFrom(s, p, 0)
  }

  /** JavaScript `s.replace(p, rep)` with a string pattern and a replacement
      without `$` patterns: only the leftmost occurrence is replaced. */
  function ReplaceFirst(s: string, p: string, rep: string): (r: string)
    ensures !Contains(s, p) ==> r == s
    ensures forall i: nat :: IsFirstOccurrence(s, p, i) ==> r == s[..i] + rep + s[i + |p|..]
  {
    match IndexOf(s, p)
    case None => s
    case Some(i) =>
      forall j: nat | IsFirstOccurrence(s, p, j)
        ensures j == i
      {
        FirstOccurrenceUnique(s, p, i, j);
      }
      s[..i] + rep + s[i + |p|..]
  }

  /** Where some occurrence exists, the first one is no later, and removing
      it splices the text around it. */
  lemma RemoveFirstAt(s: string, p: string, k: nat)
    requires OccursAt(s, p, k)
    ensures IndexOf(s, p).Some? && IndexOf(s, p).value <= k
    ensures ReplaceFirst(s, p, "") == s[..IndexOf(s, p).value] + s[IndexOf(s, p).value + |p|..]
  {
    var i := IndexOf(s, p).value;
    assert IsFirstOccurrence(s, p, i);
  }

  /** Replacing with the empty string introduces no new character. */
  lemma ReplaceFirstAddsNoChar(s: string, p: string, c: char)
    requires c !in s
    ensures c !in ReplaceFirst(s, p, "")
  {
    match IndexOf(s, p)
    case None =>
    case Some(i) =>
      assert s == s[..i] + s[i..i + |p|] + s[i + |p|..];
      assert ReplaceFirst(s, p, "") == s[..i] + s[i + |p|..];
  }

  /** Concatenation regroups freely. */
  lemma ConcatAssoc(a: string, b: string, c: string)
    ensures (a + b) + c == a + (b + c)
  {
  }

  /** Splitting four separator-free words joined by single separators
      gives back the four words. */
  lemma SplitFourWords(w1: string, w2: string, w3: string, w4: string, c: char)
    requires c !in w1 && c !in w2 && c !in w3 && c !in w4
    ensures Split(w1 + [c] + w2 + [c] + w3 + [c] + w4, c) == [w1, w2, w3, w4]
  {
    var b3 := w3 + [c] + w4;
    var b2 := w2 + [c] + b3;
    SplitWithout(w4, c);
    SplitAfter(w3, c, w4);
    SplitAfter(w2, c, b3);
    SplitAfter(w1, c, b2);
    Regroup4(w1, w2, w3, w4, [c]);
  }

  lemma Regroup4(w1: string, w2: string, w3: string, w4: string, sep: string)
    ensures w1 + sep + w2 + sep + w3 + sep + w4 == w1 + sep + (w2 + sep + (w3 + sep + w4))
  {
  }

  lemma Regroup3(w1: string, w2: string, w3: string, sep: string)
    ensures w1 + sep + w2 + sep + w3 == w1 + sep + (w2 + sep + w3)
  {
  }

  /** Splitting three separator-free parts joined by single separators
      gives back the three parts. */
  lemma SplitThreeParts(w1: string, w2: string, w3: string, c: char)
    requires c !in w1 && c !in w2 && c !in w3
    ensures Split(w1 + [c] + w2 + [c] + w3, c) == [w1, w2, w3]
  {
    var b2 := w2 + [c] + w3;
    SplitWithout(w3, c);
    SplitAfter(w2, c, w3);
    SplitAfter(w1, c, b2);
    Regroup3(w1, w2, w3, [c]);
  }

  /** JavaScript `parts.join(sep)`: the empty array joins to the empty string. */
  function Join(parts: seq<string>, sep: string): string
  {
    if |parts| == 0 then ""
    else if |parts| == 1 then parts[0]
    else parts[0] + sep + Join(parts[1..], sep)
  }

  /** JavaScript `s.split(c)` for a one-character separator: always at least one part. */
  function Split(s: string, c: char): (r: seq<string>)
    ensures |r| >= 1
    decreases |s|
  {
    if |s| == 0 then [""]
    else
      var rest := Split(s[1..], c);
      if s[0] == c then [""] + rest
      else [[s[0]] + rest[0]] + rest[1..]
  }

  /** A part free of the separator is read back whole. */
  lemma {:induction false} SplitWithout(a: string, c: char)
    requires c !in a
    ensures Split(a, c) == [a]
    decreases |a|
  {
    if |a| > 0 {
      SplitWithout(a[1..], c);
      assert [a[0]] + a[1..] == a;
    }
  }

  /** A separator-free prefix followed by the separator is split off as one part. */
  lemma {:induction false} SplitAfter(a: string, c: char, b: string)
    requires c !in a
    ensures Split(a + [c] + b, c) == [a] + Split(b, c)
    decreases |a|
  {
    var s := a + [c] + b;
    if |a| == 0 {
      assert s[1..] == b;
    } else {
      assert s[1..] == a[1..] + [c] + b;
      SplitAfter(a[1..], c, b);
      assert [a[0]] + a[1..] == a;
    }
  }

  /** Splitting on the separator undoes joining with it, for a non-empty list
      of separator-free parts. */
  lemma {:induction false} SplitJoin(parts: seq<string>, c: char)
    requires |parts| >= 1
    requires forall i :: 0 <= i < |parts| ==> c !in parts[i]
    ensures Split(Join(parts, [c]), c) == parts
    decreases |parts|
  {
    if |parts| == 1 {
      SplitWithout(parts[0], c);
    } else {
      SplitJoin(parts[1..], c);
      SplitAfter(parts[0], c, Join(parts[1..], [c]));
      assert [parts[0]] + parts[1..] == parts;
    }
  }

  /** Joining a concatenation of two non-empty lists puts one separator between them. */
  lemma {:induction false} JoinAppend(a: seq<string>, b: seq<string>, sep: string)
    requires |a| >= 1 && |b| >= 1
    ensures Join(a + b, sep) == Join(a, sep) + sep + Join(b, sep)
    decreases |a|
  {
    if |a| == 1 {
      assert (a + b)[1..] == b;
    } else {
      assert (a + b)[1..] == a[1..] + b;
      JoinAppend(a[1..], b, sep);
    }
  }
}
