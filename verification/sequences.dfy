/** Sequence facts the containers' abstractions are stated with: swap-removal, and
    the map a pair of parallel sequences with distinct keys stands for. */
module Sequences {

  /** The sequence after a swap-remove at `i`: the last element moves into slot `i`
      and the sequence shrinks by one. */
  ghost function SwapRemoved<T>(s: seq<T>, i: nat): (t: seq<T>)
    requires i < |s|
    ensures |t| == |s| - 1
    ensures i < |s| - 1 ==> t[i] == s[|s| - 1]
    ensures forall j | 0 <= j < |t| && j != i :: t[j] == s[j]
  {
    if i == |s| - 1 then s[..i] else s[..|s| - 1][i := s[|s| - 1]]
  }

  /** A swap-remove keeps every element except the one at `i`. */
  lemma SwapRemovedKeeps<T>(s: seq<T>, i: nat, j: nat)
    requires i < |s| && j < |s| && j != i
    ensures s[j] in SwapRemoved(s, i)
  {
    var t := SwapRemoved(s, i);
    if j == |s| - 1 {
      assert t[i] == s[j];
    } else {
      assert t[j] == s[j];
    }
  }

  ghost predicate Distinct<T>(s: seq<T>) {
    forall i, j | 0 <= i < j < |s| :: s[i] != s[j]
  }

  /** A position at which `x` occurs in `s`. */
  ghost function IndexOf<T>(s: seq<T>, x: T): (i: nat)
    requires x in s
    ensures i < |s| && s[i] == x
  {
    var i :| 0 <= i < |s| && s[i] == x;
    i
  }

  /** The map that sends `ks[i]` to `vs[i]`. */
  ghost function AsMap<K, V>(ks: seq<K>, vs: seq<V>): (m: map<K, V>)
    requires |ks| == |vs| && Distinct(ks)
    ensures forall i | 0 <= i < |ks| :: ks[i] in m && m[ks[i]] == vs[i]
    ensures forall k | k in m :: k in ks
  {
    map i | 0 <= i < |ks| :: ks[i] := vs[i]
  }

  /** Appending a fresh key adds exactly that entry. */
  lemma AsMapAppend<K, V>(ks: seq<K>, vs: seq<V>, k: K, v: V)
    requires |ks| == |vs| && Distinct(ks) && k !in ks
    ensures Distinct(ks + [k])
    ensures AsMap(ks + [k], vs + [v]) == AsMap(ks, vs)[k := v]
  {
    var m := AsMap(ks + [k], vs + [v]);
    var m0 := AsMap(ks, vs)[k := v];
    forall x | x in m
      ensures x in m0 && m[x] == m0[x]
    {
      var i :| 0 <= i < |ks| + 1 && (ks + [k])[i] == x;
      if i < |ks| {
        assert ks[i] == x;
      }
    }
    forall x | x in m0
      ensures x in m
    {
      if x != k {
        var i :| 0 <= i < |ks| && ks[i] == x;
        assert (ks + [k])[i] == x;
      } else {
        assert (ks + [k])[|ks|] == x;
      }
    }
  }

  /** Replacing the value at a position changes exactly the entry of its key. */
  lemma AsMapUpdate<K, V>(ks: seq<K>, vs: seq<V>, i: nat, v: V)
    requires |ks| == |vs| && Distinct(ks) && i < |ks|
    ensures AsMap(ks, vs[i := v]) == AsMap(ks, vs)[ks[i] := v]
  {
    var m := AsMap(ks, vs[i := v]);
    var m0 := AsMap(ks, vs)[ks[i] := v];
    forall x | x in m
      ensures x in m0 && m[x] == m0[x]
    {
      var j :| 0 <= j < |ks| && ks[j] == x;
    }
    forall x | x in m0
      ensures x in m
    {
      if x != ks[i] {
        var j :| 0 <= j < |ks| && ks[j] == x;
      }
    }
  }

  /** Where each element of a swap-removed sequence comes from. */
  lemma SwapRemovedSource<T>(s: seq<T>, i: nat, j: nat)
    requires i < |s| && j < |s| - 1
    ensures SwapRemoved(s, i)[j] == s[if j == i then |s| - 1 else j]
  {
  }

  /** A swap-remove keeps distinct elements distinct. */
  lemma SwapRemovedDistinct<T>(s: seq<T>, i: nat)
    requires Distinct(s) && i < |s|
    ensures Distinct(SwapRemoved(s, i))
  {
    var t := SwapRemoved(s, i);
    forall a, b | 0 <= a < b < |t|
      ensures t[a] != t[b]
    {
      SwapRemovedSource(s, i, a);
      SwapRemovedSource(s, i, b);
    }
  }

  /** Swap-removing the same position from both sequences removes exactly the entry
      of the key at that position. */
  lemma AsMapSwapRemove<K, V>(ks: seq<K>, vs: seq<V>, i: nat)
    requires |ks| == |vs| && Distinct(ks) && i < |ks|
    ensures Distinct(SwapRemoved(ks, i))
    ensures AsMap(SwapRemoved(ks, i), SwapRemoved(vs, i)) == AsMap(ks, vs) - {ks[i]}
  {
    SwapRemovedDistinct(ks, i);
    var ks' := SwapRemoved(ks, i);
    var vs' := SwapRemoved(vs, i);
    var m := AsMap(ks', vs');
    var m0 := AsMap(ks, vs) - {ks[i]};
    forall x | x in m
      ensures x in m0 && m[x] == m0[x]
    {
      var j :| 0 <= j < |ks'| && ks'[j] == x;
      SwapRemovedSource(ks, i, j);
      SwapRemovedSource(vs, i, j);
    }
    forall x | x in m0
      ensures x in m
    {
      var j :| 0 <= j < |ks| && ks[j] == x;
      SwapRemovedKeeps(ks, i, j);
    }
  }

  /** Distinct keys give as many entries as positions. */
  lemma {:induction false} AsMapSize<K, V>(ks: seq<K>, vs: seq<V>)
    requires |ks| == |vs| && Distinct(ks)
    ensures |AsMap(ks, vs)| == |ks|
    decreases |ks|
  {
    if |ks| > 0 {
      var n := |ks| - 1;
      assert ks == ks[..n] + [ks[n]] && vs == vs[..n] + [vs[n]];
      assert ks[n] !in ks[..n];
      AsMapSize(ks[..n], vs[..n]);
      AsMapAppend(ks[..n], vs[..n], ks[n], vs[n]);
    }
  }
}
