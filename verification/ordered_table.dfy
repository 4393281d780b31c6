/**
 The route table `routes: Record<string, string>` as JavaScript keeps it:
 entries in the order their keys were first assigned, and an assignment to
 a key already present overwrites its value in place. (JavaScript lists
 integer-like keys first; route keys are never integer-like, see
 `RouteKey.RouteKeyNotSpecial`, so insertion order is the whole story.)
 */
module OrderedTable {
  import opened Wrappers

  /** `Record<string, string>`: keys and values are strings. */
  type K = string
  type V = string

  /** The entries in enumeration order, as `Object.entries` lists them. */
  type Table = seq<(K, V)>

  function Keys(t: Table): (ks: seq<K>)
    ensures |ks| == |t|
    ensures forall i :: 0 <= i < |t| ==> ks[i] == t[i].0
  {
    seq(|t|, i requires 0 <= i < |t| => t[i].0)
  }

  predicate UniqueKeys(ks: seq<K>) {
    forall i, j :: 0 <= i < j < |ks| ==> ks[i] != ks[j]
  }

  /** Position of the first `k` in `ks`, or `|ks|` when there is none. */
  function FirstIndex(ks: seq<K>, k: K): (r: nat)
    ensures r <= |ks|
    ensures r < |ks| ==> ks[r] == k
    ensures forall j :: 0 <= j < r ==> ks[j] != k
    ensures r == |ks| <==> k !in ks
  {
    if |ks| == 0 then 0
    else if ks[0] == k then 0
    else 1 + FirstIndex(ks[1..], k)
  }

  /** Property lookup `t[k]`; `None` stands for `undefined`. */
  function Get(t: Table, k: K): (r: Option<V>)
    ensures r.Some? <==> k in Keys(t)
    ensures r.Some? ==> (k, r.value) in t
  {
    var i := FirstIndex(Keys(t), k);
    if i < |t| then Some(t[i].1) else None
  }

  /** Property assignment `t[k] = v`: overwrite in place, or append a new entry. */
  function Put(t: Table, k: K, v: V): (r: Table)
    ensures Get(r, k) == Some(v)
    ensures k in Keys(t) ==> Keys(r) == Keys(t)
    ensures k !in Keys(t) ==> Keys(r) == Keys(t) + [k]
    ensures UniqueKeys(Keys(t)) ==> UniqueKeys(Keys(r))
  {
    var i := FirstIndex(Keys(t), k);
    if i < |t| then
      var r := t[i := (k, v)];
      assert Keys(r) == Keys(t);
      r
    else
      var r := t + [(k, v)];
      assert Keys(r) == Keys(t) + [k];
      r
  }

  /** Assigning `k` leaves every other key's value as it was. */
  lemma PutKeepsOthers(t: Table, k: K, v: V, k': K)
    requires k' != k
    ensures Get(Put(t, k, v), k') == Get(t, k')
  {
    var r := Put(t, k, v);
    var i := FirstIndex(Keys(t), k);
    var j := FirstIndex(Keys(t), k');
    if i < |t| {
      assert Keys(r) == Keys(t);
      if j < |t| {
        assert j != i;
        assert r[j] == t[j];
      }
    } else {
      assert Keys(r) == Keys(t) + [k];
      FirstIndexAppend(Keys(t), k, k');
      if j < |t| {
        assert r[j] == t[j];
      }
    }
  }

  /** Every entry after an assignment was there before or is the assignment itself. */
  lemma PutEntries(t: Table, k: K, v: V)
    ensures forall i :: 0 <= i < |Put(t, k, v)| ==> Put(t, k, v)[i] in t || Put(t, k, v)[i] == (k, v)
  {
  }

  /** Appending a key does not move the first position of a key already present. */
  lemma FirstIndexAppend(ks: seq<K>, k: K, k': K)
    ensures k' in ks ==> FirstIndex(ks + [k], k') == FirstIndex(ks, k')
    ensures k' !in ks && k' != k ==> FirstIndex(ks + [k], k') == |ks| + 1
    ensures k !in ks ==> FirstIndex(ks + [k], k) == |ks|
  {
    var r := FirstIndex(ks, k');
    var r' := FirstIndex(ks + [k], k');
    if k' in ks {
      assert (ks + [k])[r] == k';
      assert r' < |ks| && ks[r'] == (ks + [k])[r'];
    } else if k' != k {
      assert k' !in ks + [k];
    }
    if k !in ks {
      assert (ks + [k])[|ks|] == k;
    }
  }

  /** The table after the assignments `t[ps[0].0] = ps[0].1`, ... in order,
      starting from `{}`. */
  function Build(ps: seq<(K, V)>): (t: Table)
    ensures |t| <= |ps|
  {
    if |ps| == 0 then []
    else Put(Build(ps[..|ps| - 1]), ps[|ps| - 1].0, ps[|ps| - 1].1)
  }

  /** Reference reading of a sequence of assignments: the value a key ends
      up with is the one its last assignment gave it. */
  function LastValue(ps: seq<(K, V)>, k: K): (r: Option<V>)
    ensures r.None? <==> k !in Keys(ps)
  {
    if |ps| == 0 then None
    else
      assert Keys(ps) == Keys(ps[..|ps| - 1]) + [ps[|ps| - 1].0];
      if ps[|ps| - 1].0 == k then Some(ps[|ps| - 1].1)
      else LastValue(ps[..|ps| - 1], k)
  }

  /** The assignment at `i` is the last one to `k`, so `k` ends up with its value. */
  lemma {:induction false} LastValueIsLast(ps: seq<(K, V)>, k: K, i: nat)
    requires i < |ps| && ps[i].0 == k && LastAssignment(ps, k, i)
    ensures LastValue(ps, k) == Some(ps[i].1)
  {
    if i < |ps| - 1 {
      var pre := ps[..|ps| - 1];
      assert pre[i] == ps[i];
      LastValueIsLast(pre, k, i);
    }
  }

  /** No assignment after position `i` touches `k`. */
  predicate LastAssignment(ps: seq<(K, V)>, k: K, i: nat) {
    forall j :: i < j < |ps| ==> ps[j].0 != k
  }

  /** `Build` never lists a key twice. */
  lemma {:induction false} BuildUniqueKeys(ps: seq<(K, V)>)
    ensures UniqueKeys(Keys(Build(ps)))
  {
    if |ps| > 0 {
      BuildUniqueKeys(ps[..|ps| - 1]);
    }
  }

  /** Every key reads back the value of its last assignment. */
  lemma {:induction false} BuildLookup(ps: seq<(K, V)>, k: K)
    ensures Get(Build(ps), k) == LastValue(ps, k)
  {
    if |ps| > 0 {
      BuildLookup(ps[..|ps| - 1], k);
      if ps[|ps| - 1].0 != k {
        PutKeepsOthers(Build(ps[..|ps| - 1]), ps[|ps| - 1].0, ps[|ps| - 1].1, k);
      }
    }
  }

  /** The distinct keys among the assignments. */
  function KeySet(ps: seq<(K, V)>): (ks: set<K>)
    ensures forall k :: k in ks <==> k in Keys(ps)
  {
    if |ps| == 0 then {}
    else
      assert Keys(ps) == Keys(ps[..|ps| - 1]) + [ps[|ps| - 1].0];
      KeySet(ps[..|ps| - 1]) + {ps[|ps| - 1].0}
  }

  /** The table has one entry per distinct assigned key. */
  lemma {:induction false} BuildSize(ps: seq<(K, V)>)
    ensures |Build(ps)| == |KeySet(ps)|
  {
    if |ps| > 0 {
      var pre := ps[..|ps| - 1];
      var k := ps[|ps| - 1].0;
      var t0 := Build(pre);
      var t := Put(t0, k, ps[|ps| - 1].1);
      assert Build(ps) == t;
      assert KeySet(ps) == KeySet(pre) + {k};
      BuildSize(pre);
      BuildKeySet(pre, k);
      var n0 := |KeySet(pre)|;
      assert |t0| == n0;
      if k in Keys(t0) {
        assert k in KeySet(pre);
        assert KeySet(pre) + {k} == KeySet(pre);
        assert |Keys(t)| == |Keys(t0)|;
        assert |t| == |t0|;
      } else {
        assert k !in KeySet(pre);
        assert |KeySet(pre) + {k}| == n0 + 1;
        assert |Keys(t)| == |Keys(t0)| + 1;
        assert |t| == |t0| + 1;
      }
    }
  }

  /** Every entry of the table is one of the assignments. */
  lemma {:induction false} BuildEntriesAssigned(ps: seq<(K, V)>)
    ensures forall i :: 0 <= i < |Build(ps)| ==> Build(ps)[i] in ps
  {
    if |ps| > 0 {
      var pre := ps[..|ps| - 1];
      BuildEntriesAssigned(pre);
      PutEntries(Build(pre), ps[|ps| - 1].0, ps[|ps| - 1].1);
      assert ps == pre + [ps[|ps| - 1]];
    }
  }

  /** The table holds exactly the keys that were assigned. */
  lemma BuildKeySet(ps: seq<(K, V)>, k: K)
    ensures k in Keys(Build(ps)) <==> k in Keys(ps)
  {
    BuildLookup(ps, k);
  }

  /** Each entry carries the value of its key's last assignment. */
  lemma BuildEntries(ps: seq<(K, V)>)
    ensures forall i :: 0 <= i < |Build(ps)| ==> LastValue(ps, Build(ps)[i].0) == Some(Build(ps)[i].1)
  {
    var t := Build(ps);
    BuildUniqueKeys(ps);
    forall i | 0 <= i < |t|
      ensures LastValue(ps, t[i].0) == Some(t[i].1)
    {
      BuildLookup(ps, t[i].0);
      assert FirstIndex(Keys(t), t[i].0) == i;
    }
  }

  /** Entries come in the order of their keys' first assignments: a key
      re-assigned later keeps its original place. */
  lemma {:induction false} BuildOrder(ps: seq<(K, V)>)
    ensures Increasing(Positions(Keys(ps), Build(ps)))
  {
    if |ps| > 0 {
      var pre := ps[..|ps| - 1];
      BuildOrder(pre);
      BuildPositions(ps);
      IncreasingExtend(Positions(Keys(ps), Build(ps)), Positions(Keys(pre), Build(pre)), |pre|);
    }
  }

  /** After one more assignment the earlier entries keep their places and
      their first assignments, all before the last one; a key assigned for
      the first time is listed last, first assigned by the last assignment. */
  lemma BuildPositions(ps: seq<(K, V)>)
    requires |ps| > 0
    ensures var a := Positions(Keys(ps), Build(ps));
            var a0 := Positions(Keys(ps[..|ps| - 1]), Build(ps[..|ps| - 1]));
            && |a0| <= |a| <= |a0| + 1
            && (forall i :: 0 <= i < |a0| ==> a[i] == a0[i] < |ps| - 1)
            && (|a| > |a0| ==> a[|a0|] == |ps| - 1)
  {
    var pre := ps[..|ps| - 1];
    var k := ps[|ps| - 1].0;
    assert Keys(ps) == Keys(pre) + [k];
    var t0 := Build(pre);
    var t := Build(ps);
    assert t == Put(t0, k, ps[|ps| - 1].1);
    forall i | 0 <= i < |t0|
      ensures t[i].0 == t0[i].0
      ensures FirstIndex(Keys(ps), t[i].0) == FirstIndex(Keys(pre), t0[i].0) < |pre|
    {
      assert Keys(t)[i] == Keys(t0)[i];
      BuildKeySet(pre, t0[i].0);
      FirstIndexAppend(Keys(pre), k, t0[i].0);
    }
    if |t| > |t0| {
      BuildKeySet(pre, k);
      FirstIndexAppend(Keys(pre), k, k);
      assert t[|t0|].0 == Keys(t)[|t0|] == k;
    }
  }

  /** Where each entry's key was first assigned. */
  function Positions(ks: seq<K>, t: Table): (a: seq<nat>)
    ensures |a| == |t|
    ensures forall i :: 0 <= i < |t| ==> a[i] == FirstIndex(ks, t[i].0)
  {
    seq(|t|, i requires 0 <= i < |t| => FirstIndex(ks, t[i].0))
  }

  predicate Increasing(a: seq<nat>) {
    forall i, j :: 0 <= i < j < |a| ==> a[i] < a[j]
  }

  /** An increasing sequence stays increasing when its entries are kept
      below `n` and at most `n` itself is appended. */
  lemma IncreasingExtend(a: seq<nat>, a0: seq<nat>, n: nat)
    requires |a0| <= |a| <= |a0| + 1
    requires Increasing(a0)
    requires forall i :: 0 <= i < |a0| ==> a[i] == a0[i] < n
    requires |a| > |a0| ==> a[|a0|] == n
    ensures Increasing(a)
  {
  }
}
