/** Cluster chains in a FAT, seen as a table of numbers, and the allocator's bookkeeping on them. */
module Chains {
  import opened Bytes

  /** Entry `i` of the path names its successor; the last holds an end mark (any value past the table). */
  ghost predicate Links(t: seq<u32>, p: seq<nat>, i: nat)
    requires i < |p|
  {
    2 <= p[i] < |t| && if i + 1 < |p| then t[p[i]] == p[i + 1] else t[p[i]] >= |t|
  }

  /** `p` is the chain that starts at cluster `p[0]`. */
  ghost predicate IsChain(t: seq<u32>, p: seq<nat>) {
    |p| > 0 && forall i :: 0 <= i < |p| ==> Links(t, p, i)
  }

  /** Two chains that meet go on identically. */
  lemma {:induction false} ChainsMerge(t: seq<u32>, p: seq<nat>, q: seq<nat>, i: nat, j: nat)
    requires IsChain(t, p) && IsChain(t, q) && i < |p| && j < |q| && p[i] == q[j]
    ensures p[i..] == q[j..]
    decreases |p| - i
  {
    assert Links(t, p, i) && Links(t, q, j);
    if i + 1 < |p| {
      assert Links(t, p, i + 1);
      ChainsMerge(t, p, q, i + 1, j + 1);
      assert p[i..] == [p[i]] + p[i + 1..];
      assert q[j..] == [q[j]] + q[j + 1..];
    } else {
      assert j + 1 < |q| ==> Links(t, q, j + 1);
    }
  }

  /** A chain never visits a cluster twice. */
  lemma ChainIsAcyclic(t: seq<u32>, p: seq<nat>)
    requires IsChain(t, p)
    ensures forall i, j :: 0 <= i < j < |p| ==> p[i] != p[j]
  {
    forall i, j | 0 <= i < j < |p|
      ensures p[i] != p[j]
    {
      if p[i] == p[j] {
        ChainsMerge(t, p, p, i, j);
        assert false;
      }
    }
  }

  /** The chain is determined by its first cluster. */
  lemma ChainIsUnique(t: seq<u32>, p: seq<nat>, q: seq<nat>)
    requires IsChain(t, p) && IsChain(t, q) && p[0] == q[0]
    ensures p == q
  {
    ChainsMerge(t, p, q, 0, 0);
    assert p[0..] == p && q[0..] == q;
  }

  /** A chain survives any change to entries it does not use. */
  lemma ChainFrame(t: seq<u32>, t': seq<u32>, p: seq<nat>)
    requires IsChain(t, p) && |t'| == |t|
    requires forall c :: 0 <= c < |t| && c in p ==> t'[c] == t[c]
    ensures IsChain(t', p)
  {
    forall i | 0 <= i < |p|
      ensures Links(t', p, i)
    {
      assert Links(t, p, i) && p[i] in p;
    }
  }

  ghost predicate Disjoint(p: seq<nat>, q: seq<nat>) {
    forall c :: c in p ==> c !in q
  }

  /** Some listed chain visits cluster `c`. */
  ghost predicate Owned(cs: set<seq<nat>>, c: nat) {
    exists p :: p in cs && c in p
  }

  /** The FAT is a set of pairwise disjoint chains that cover every nonzero entry. */
  ghost predicate Forest(t: seq<u32>, cs: set<seq<nat>>) {
    && (forall p :: p in cs ==> IsChain(t, p))
    && (forall p, q :: p in cs && q in cs && p != q ==> Disjoint(p, q))
    && (forall c :: 2 <= c < |t| && t[c] != 0 ==> Owned(cs, c))
  }

  /** A cluster on a chain is in use and not marked with the reserved value 1. */
  lemma OnChain(t: seq<u32>, p: seq<nat>, c: nat)
    requires IsChain(t, p) && c in p
    ensures 2 <= c < |t| && t[c] >= 2
  {
    var i :| 0 <= i < |p| && p[i] == c;
    assert Links(t, p, i);
    if i + 1 < |p| { assert Links(t, p, i + 1); }
  }

  /** No entry of a forest holds the reserved value 1. */
  lemma ForestHasNoOnes(t: seq<u32>, cs: set<seq<nat>>, c: nat)
    requires Forest(t, cs) && 2 <= c < |t|
    ensures t[c] != 1
  {
    hide IsChain;
    if t[c] != 0 {
      assert Owned(cs, c);
      var p :| p in cs && c in p;
      OnChain(t, p, c);
    }
  }

  /** A forest stays one when one chain `p` is replaced by `p'` and only entries of these change. */
  lemma ReplaceChain(t: seq<u32>, t': seq<u32>, cs: set<seq<nat>>, p: seq<nat>, p': seq<nat>)
    requires Forest(t, cs) && |t'| == |t| && p in cs && IsChain(t', p')
    requires forall c :: 0 <= c < |t| && c !in p && c !in p' ==> t'[c] == t[c]
    requires forall c :: 0 <= c < |t| && c in p && c !in p' ==> t'[c] == 0
    requires forall c :: c in p' && c !in p ==> c < |t| && t[c] == 0
    ensures Forest(t', cs - {p} + {p'})
  {
    hide IsChain;
    var cs' := cs - {p} + {p'};
    forall q | q in cs && q != p
      ensures IsChain(t', q) && Disjoint(q, p') && Disjoint(p', q)
    {
      assert Disjoint(q, p);
      forall c | c in q
        ensures c !in p'
      {
        OnChain(t, q, c);
      }
      ChainFrame(t, t', q);
    }
    forall c | 2 <= c < |t| && t'[c] != 0
      ensures Owned(cs', c)
    {
      if c in p' {
        assert p' in cs';
      } else {
        assert Owned(cs, c);
        var q :| q in cs && c in q;
        assert q in cs';
      }
    }
  }

  /** A forest loses one whole chain. */
  lemma DropChain(t: seq<u32>, t': seq<u32>, cs: set<seq<nat>>, p: seq<nat>)
    requires Forest(t, cs) && |t'| == |t| && p in cs
    requires forall c :: 0 <= c < |t| ==> t'[c] == if c in p then 0 else t[c]
    ensures Forest(t', cs - {p})
  {
    hide IsChain;
    forall q | q in cs && q != p
      ensures IsChain(t', q)
    {
      assert Disjoint(q, p);
      ChainFrame(t, t', q);
    }
    forall c | 2 <= c < |t| && t'[c] != 0
      ensures Owned(cs - {p}, c)
    {
      assert Owned(cs, c);
      var q :| q in cs && c in q;
      assert q in cs - {p};
    }
  }

  lemma NewChain(t: seq<u32>, c: nat, eoc: u32)
    requires c < |t| && 2 <= c && eoc >= |t|
    ensures IsChain(t[c := eoc], [] + [c])
  {
    assert [] + [c] == [c];
    assert Links(t[c := eoc], [c], 0);
  }

  /** A formerly free cluster becomes a chain of its own. */
  lemma NewChainForest(t: seq<u32>, cs: set<seq<nat>>, c: nat, eoc: u32)
    requires Forest(t, cs) && 2 <= c < |t| && t[c] == 0 && eoc >= |t|
    ensures IsChain(t[c := eoc], [c])
    ensures Forest(t[c := eoc], cs + {[c]})
  {
    var t' := t[c := eoc];
    assert Links(t', [c], 0);
    assert IsChain(t', [c]);
    hide IsChain;
    forall p | p in cs
      ensures IsChain(t', p) && Disjoint(p, [c]) && Disjoint([c], p)
    {
      if c in p {
        OnChain(t, p, c);
      }
      ChainFrame(t, t', p);
    }
    forall d | 2 <= d < |t| && t'[d] != 0
      ensures Owned(cs + {[c]}, d)
    {
      if d == c {
        assert [c] in cs + {[c]} && d in [c];
      } else {
        assert Owned(cs, d);
        var p :| p in cs && d in p;
        assert p in cs + {[c]};
      }
    }
  }

  /** The chain `p` after cluster `c` was linked behind its last one. */
  lemma StretchChain(t: seq<u32>, p: seq<nat>, c: nat, eoc: u32)
    requires IsChain(t, p) && 2 <= c < |t| && t[c] == 0 && eoc >= |t|
    ensures p[|p| - 1] < |t| && c !in p
    ensures IsChain(t[c := eoc][p[|p| - 1] := c], p + [c])
  {
    if c in p {
      OnChain(t, p, c);
    }
    ChainIsAcyclic(t, p);
    assert Links(t, p, |p| - 1);
    var p', t' := p + [c], t[c := eoc][p[|p| - 1] := c];
    forall i | 0 <= i < |p'|
      ensures Links(t', p', i)
    {
      if i < |p| {
        assert Links(t, p, i) && p[i] in p;
      }
    }
  }

  /** A formerly free cluster is appended to exactly one chain. */
  lemma StretchForest(t: seq<u32>, cs: set<seq<nat>>, p: seq<nat>, c: nat, eoc: u32)
    requires Forest(t, cs) && p in cs && 2 <= c < |t| && t[c] == 0 && eoc >= |t|
    requires IsChain(t, p) && |p| > 0 && p[|p| - 1] < |t|
    ensures Forest(t[c := eoc][p[|p| - 1] := c], cs - {p} + {p + [c]})
  {
    hide IsChain;
    StretchChain(t, p, c, eoc);
    assert p[|p| - 1] in p;
    ReplaceChain(t, t[c := eoc][p[|p| - 1] := c], cs, p, p + [c]);
  }

  /** The table with the entries of the listed clusters set to zero. */
  function Cleared(t: seq<u32>, s: seq<nat>): (r: seq<u32>)
    ensures |r| == |t|
    ensures forall c :: 0 <= c < |t| ==> r[c] == if c in s then 0 else t[c]
  {
    seq(|t|, c requires 0 <= c < |t| => if c in s then 0 else t[c])
  }

  /** Freeing a whole chain removes it and nothing else. */
  lemma ClearChainForest(t: seq<u32>, cs: set<seq<nat>>, p: seq<nat>)
    requires Forest(t, cs) && p in cs
    ensures Forest(Cleared(t, p), cs - {p})
  {
    hide IsChain;
    DropChain(t, Cleared(t, p), cs, p);
  }

  /** The part of a chain cut off behind its first `k` clusters is a chain of its own. */
  lemma CutTail(t: seq<u32>, p: seq<nat>, k: nat, eoc: u32)
    requires IsChain(t, p) && 0 < k < |p| && eoc >= |t|
    ensures 2 <= p[k - 1] < |t| && p[k - 1] !in p[k..]
    ensures IsChain(t[p[k - 1] := eoc], p[k..])
  {
    ChainIsAcyclic(t, p);
    assert Links(t, p, k - 1);
    var t1, q := t[p[k - 1] := eoc], p[k..];
    forall j | 0 <= j < |q|
      ensures Links(t1, q, j)
    {
      assert Links(t, p, k + j);
    }
  }

  /** The kept part of a cut chain is a chain. */
  lemma CutHead(t: seq<u32>, p: seq<nat>, k: nat, eoc: u32)
    requires IsChain(t, p) && 0 < k < |p| && eoc >= |t| && p[k - 1] < |t|
    ensures Disjoint(p[..k], p[k..])
    ensures IsChain(Cleared(t[p[k - 1] := eoc], p[k..]), p[..k])
  {
    ChainIsAcyclic(t, p);
    var t', p' := Cleared(t[p[k - 1] := eoc], p[k..]), p[..k];
    forall i | 0 <= i < k
      ensures p[i] !in p[k..] && Links(t', p', i)
    {
      assert Links(t, p, i);
    }
  }

  /** Cutting a chain after its first `k` clusters frees exactly the rest. */
  lemma CutChainForest(t: seq<u32>, cs: set<seq<nat>>, p: seq<nat>, k: nat, eoc: u32)
    requires Forest(t, cs) && p in cs && 0 < k < |p| && eoc >= |t| && p[k - 1] < |t|
    ensures Forest(Cleared(t[p[k - 1] := eoc], p[k..]), cs - {p} + {p[..k]})
  {
    assert IsChain(t, p);
    hide IsChain;
    CutHead(t, p, k, eoc);
    assert p[k - 1] == p[..k][k - 1];
    assert forall c :: c in p <==> c in p[..k] || c in p[k..] by {
      assert p == p[..k] + p[k..];
    }
    ReplaceChain(t, Cleared(t[p[k - 1] := eoc], p[k..]), cs, p, p[..k]);
  }

  /** How many entries of `t[lo..hi]` are zero. */
  function Zeros(t: seq<u32>, lo: nat, hi: nat): (z: nat)
    requires lo <= hi <= |t|
    ensures z <= hi - lo
    decreases hi - lo
  {
    if lo == hi then 0 else Zeros(t, lo, hi - 1) + (if t[hi - 1] == 0 then 1 else 0)
  }

  /** The number of free clusters. */
  function FreeClusters(t: seq<u32>): nat
    requires |t| >= 2
  {
    Zeros(t, 2, |t|)
  }

  lemma {:induction false} ZerosUpdate(t: seq<u32>, lo: nat, hi: nat, c: nat, v: u32)
    requires lo <= hi <= |t| && c < |t|
    ensures Zeros(t[c := v], lo, hi) == Zeros(t, lo, hi)
      + (if lo <= c < hi then (if v == 0 then 1 else 0) - (if t[c] == 0 then 1 else 0) else 0)
    decreases hi - lo
  {
    if lo < hi {
      ZerosUpdate(t, lo, hi - 1, c, v);
    }
  }

  /** The count is zero exactly when no entry is free. */
  lemma {:induction false} ZerosNone(t: seq<u32>, lo: nat, hi: nat)
    requires lo <= hi <= |t|
    ensures Zeros(t, lo, hi) == 0 <==> forall c :: lo <= c < hi ==> t[c] != 0
    decreases hi - lo
  {
    if lo < hi {
      ZerosNone(t, lo, hi - 1);
    }
  }

  lemma {:induction false} ZerosSplit(t: seq<u32>, lo: nat, mid: nat, hi: nat)
    requires lo <= mid <= hi <= |t|
    ensures Zeros(t, lo, hi) == Zeros(t, lo, mid) + Zeros(t, mid, hi)
    decreases hi
  {
    if mid < hi {
      ZerosSplit(t, lo, mid, hi - 1);
    }
  }

  /** One chain `p` was replaced by `p'`: what left it is free, what joined it was free, and nothing else
      changed. Either may be empty. */
  ghost predicate Rechained(t: seq<u32>, t': seq<u32>, p: seq<nat>, p': seq<nat>) {
    && |t'| == |t|
    && (forall c :: 0 <= c < |t| && c !in p && c !in p' ==> t'[c] == t[c])
    && (forall c :: 0 <= c < |t| && c in p && c !in p' ==> t'[c] == 0)
    && (forall c :: c in p' && c !in p ==> c < |t| && t[c] == 0)
  }

  /** No cluster, or the clusters of a chain. */
  ghost predicate IsChainOrNone(t: seq<u32>, p: seq<nat>) {
    p == [] || IsChain(t, p)
  }

  /** A forest stays one when a chain appears, changes or disappears in this way. */
  lemma RechainedForest(t: seq<u32>, t': seq<u32>, cs: set<seq<nat>>, p: seq<nat>, p': seq<nat>)
    requires Forest(t, cs) && (p == [] || p in cs) && Rechained(t, t', p, p') && IsChainOrNone(t', p')
    ensures Forest(t', cs - {p} + if p' == [] then {} else {p'})
  {
    hide IsChain;
    if p != [] && p' != [] {
      ReplaceChain(t, t', cs, p, p');
    } else if p != [] {
      forall c | 0 <= c < |t| ensures t'[c] == if c in p then 0 else t[c] {}
      DropChain(t, t', cs, p);
      assert cs - {p} + {} == cs - {p};
    } else {
      ChainsAreNotEmpty(t, cs);
      assert cs - {p} == cs;
      if p' == [] {
        assert t' == t && cs + {} == cs;
      } else {
        AppearedChain(t, t', cs, p');
      }
    }
  }

  lemma ChainsAreNotEmpty(t: seq<u32>, cs: set<seq<nat>>)
    requires forall q :: q in cs ==> IsChain(t, q)
    ensures [] !in cs
  {
  }

  /** A chain of formerly free clusters joins the forest. */
  lemma AppearedChain(t: seq<u32>, t': seq<u32>, cs: set<seq<nat>>, p': seq<nat>)
    requires Forest(t, cs) && IsChain(t', p') && Rechained(t, t', [], p')
    ensures Forest(t', cs + {p'})
  {
    hide IsChain;
    var cs' := cs + {p'};
    forall q | q in cs
      ensures IsChain(t', q) && Disjoint(q, p') && Disjoint(p', q)
    {
      forall c | c in q ensures c !in p' { OnChain(t, q, c); }
      ChainFrame(t, t', q);
    }
    forall c | 2 <= c < |t| && t'[c] != 0
      ensures Owned(cs', c)
    {
      if c in p' {
        assert p' in cs';
      } else {
        assert Owned(cs, c);
        var q :| q in cs && c in q;
        assert q in cs';
      }
    }
  }

  function FreeSet(t: seq<u32>, hi: nat): (r: set<nat>)
    requires hi <= |t|
    ensures forall c :: c in r <==> 2 <= c < hi && t[c] == 0
  {
    set c: nat | 2 <= c < hi && t[c] == 0
  }

  lemma {:induction false} ZerosIsSet(t: seq<u32>, hi: nat)
    requires 2 <= hi <= |t|
    ensures |FreeSet(t, hi)| == Zeros(t, 2, hi)
    decreases hi
  {
    if hi == 2 {
      assert FreeSet(t, hi) == {};
    } else {
      ZerosIsSet(t, hi - 1);
      if t[hi - 1] == 0 {
        assert FreeSet(t, hi) == FreeSet(t, hi - 1) + {hi - 1};
      } else {
        assert FreeSet(t, hi) == FreeSet(t, hi - 1);
      }
    }
  }

  function Members(p: seq<nat>): (r: set<nat>)
    ensures forall c :: c in r <==> c in p
  {
    set c | c in p
  }

  lemma {:induction false} MembersCount(p: seq<nat>)
    requires forall i, j :: 0 <= i < j < |p| ==> p[i] != p[j]
    ensures |Members(p)| == |p|
    decreases |p|
  {
    if p == [] {
      assert Members(p) == {};
    } else {
      var q, c := p[..|p| - 1], p[|p| - 1];
      MembersCount(q);
      assert p == q + [c];
      assert Members(p) == Members(q) + {c};
    }
  }

  lemma ChainCount(t: seq<u32>, p: seq<nat>)
    requires IsChainOrNone(t, p) && |t| >= 2
    ensures |FreeSet(t, |t|) + Members(p)| == FreeClusters(t) + |p|
  {
    ZerosIsSet(t, |t|);
    if p != [] {
      ChainIsAcyclic(t, p);
      hide IsChain;
      forall c | c in p ensures c !in FreeSet(t, |t|) { OnChain(t, p, c); }
    }
    MembersCount(p);
    assert FreeSet(t, |t|) !! Members(p);
  }

  /** What the chain gains is what the free space loses. */
  lemma RechainedConserves(t: seq<u32>, t': seq<u32>, p: seq<nat>, p': seq<nat>)
    requires Rechained(t, t', p, p') && IsChainOrNone(t, p) && IsChainOrNone(t', p') && |t| >= 2
    ensures FreeClusters(t') + |p'| == FreeClusters(t) + |p|
  {
    ChainCount(t, p);
    ChainCount(t', p');
    hide IsChain;
    var a, b := FreeSet(t, |t|) + Members(p), FreeSet(t', |t|) + Members(p');
    forall c | c in p ensures 2 <= c < |t| { OnChain(t, p, c); }
    forall c | c in p' ensures 2 <= c < |t| { OnChain(t', p', c); }
    assert a == b;
  }
}
