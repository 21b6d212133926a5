/**
 * The Cheriyan–Mehlhorn–Gabow path-based strongly-connected-components
 * algorithm over a finite graph given as a successor map, with the proof
 * that it numbers every node it reaches and that two nodes get the same
 * component number exactly when each reaches the other.
 */
module PathScc {

  // ---------------------------------------------------------------------
  // Graphs and reachability
  // ---------------------------------------------------------------------

  /** Every successor of a node of the graph is itself a node of the graph. */
  ghost predicate Closed<T(!new)>(g: map<T, seq<T>>) {
    forall v, w :: v in g && w in g[v] ==> w in g
  }

  ghost predicate IsPath<T(!new)>(g: map<T, seq<T>>, p: seq<T>) {
    |p| > 0 && forall k :: 0 <= k < |p| - 1 ==> p[k] in g && p[k + 1] in g[p[k]]
  }

  /** `b` can be reached from `a` by following zero or more edges. */
  ghost predicate Reach<T(!new)>(g: map<T, seq<T>>, a: T, b: T) {
    exists p :: IsPath(g, p) && p[0] == a && p[|p| - 1] == b
  }

  lemma ReachRefl<T(!new)>(g: map<T, seq<T>>, a: T)
    ensures Reach(g, a, a)
  {
    assert IsPath(g, [a]);
  }

  lemma ReachEdge<T(!new)>(g: map<T, seq<T>>, a: T, b: T)
    requires a in g && b in g[a]
    ensures Reach(g, a, b)
  {
    assert IsPath(g, [a, b]);
  }

  lemma ReachTrans<T(!new)>(g: map<T, seq<T>>, a: T, b: T, c: T)
    requires Reach(g, a, b) && Reach(g, b, c)
    ensures Reach(g, a, c)
  {
    var p :| IsPath(g, p) && p[0] == a && p[|p| - 1] == b;
    var q :| IsPath(g, q) && q[0] == b && q[|q| - 1] == c;
    var r := p + q[1..];
    forall k | 0 <= k < |r| - 1
      ensures r[k] in g && r[k + 1] in g[r[k]]
    {
      if k < |p| - 1 {
        assert r[k] == p[k] && r[k + 1] == p[k + 1];
      } else {
        assert r[k] == q[k - |p| + 1] && r[k + 1] == q[k - |p| + 2];
      }
    }
    assert IsPath(g, r);
  }

  /** Nothing leaves a set closed under the edges: whatever it reaches is inside. */
  lemma {:induction false} ClosedSetReach<T(!new)>(g: map<T, seq<T>>, s: map<T, nat>, a: T, b: T)
    requires forall v, w :: v in s && v in g && w in g[v] ==> w in s
    requires a in s && Reach(g, a, b)
    ensures b in s
  {
    var p :| IsPath(g, p) && p[0] == a && p[|p| - 1] == b;
    var k := 0;
    while k < |p| - 1
      invariant 0 <= k <= |p| - 1
      invariant p[k] in s
    {
      k := k + 1;
    }
  }

  /** Consecutive path entries are linked by edges, so an earlier entry reaches a later one. */
  lemma PathSegmentReach<T(!new)>(g: map<T, seq<T>>, path: seq<T>, a: nat, b: nat)
    requires forall k :: 0 <= k < |path| - 1 ==> path[k] in g && path[k + 1] in g[path[k]]
    requires a <= b < |path|
    ensures Reach(g, path[a], path[b])
  {
    var p := path[a..b + 1];
    forall k | 0 <= k < |p| - 1
      ensures p[k] in g && p[k + 1] in g[p[k]]
    {
      assert p[k] == path[a + k] && p[k + 1] == path[a + k + 1];
    }
    assert IsPath(g, p);
  }

  // ---------------------------------------------------------------------
  // The algorithm's state and its invariant
  // ---------------------------------------------------------------------

  /** The sequence lists visited nodes in increasing discovery order. */
  ghost predicate SortedByDfs<T(!new)>(dfs: map<T, nat>, s: seq<T>) {
    (forall k :: 0 <= k < |s| ==> s[k] in dfs) &&
    forall a, b :: 0 <= a < b < |s| ==> dfs[s[a]] < dfs[s[b]]
  }

  ghost predicate Domains<T(!new)>(g: map<T, seq<T>>, dfs: map<T, nat>, scc: map<T, nat>, dfsCount: nat, sccCount: nat) {
    dfs.Keys <= g.Keys && scc.Keys <= dfs.Keys &&
    (forall v :: v in dfs ==> dfs[v] < dfsCount) &&
    (forall v :: v in scc ==> scc[v] < sccCount) &&
    (forall v, w :: v in dfs && w in dfs && v != w ==> dfs[v] != dfs[w])
  }

  /** `open` holds exactly the visited nodes without a component, in discovery order. */
  ghost predicate OpenOk<T(!new)>(dfs: map<T, nat>, scc: map<T, nat>, open: seq<T>) {
    SortedByDfs(dfs, open) && forall v :: v in open <==> v in dfs && v !in scc
  }

  /** The current depth-first path: open nodes in discovery order, each an edge from the one before. */
  ghost predicate PathOk<T(!new)>(g: map<T, seq<T>>, dfs: map<T, nat>, open: seq<T>, path: seq<T>) {
    SortedByDfs(dfs, path) &&
    (forall k :: 0 <= k < |path| ==> path[k] in open) &&
    (forall k :: 0 <= k < |path| - 1 ==> path[k] in g && path[k + 1] in g[path[k]])
  }

  /** Candidate roots lie on the path, in discovery order, and the first open node is one of them. */
  ghost predicate RootsOk<T(!new)>(dfs: map<T, nat>, open: seq<T>, roots: seq<T>, path: seq<T>) {
    SortedByDfs(dfs, roots) &&
    (forall i :: 0 <= i < |roots| ==> roots[i] in path) &&
    (|open| > 0 ==> |roots| > 0 && roots[0] == open[0])
  }

  /** Open node `v` belongs to the block of the i-th candidate root. */
  ghost predicate InBlock<T(!new)>(dfs: map<T, nat>, roots: seq<T>, i: int, v: T) {
    0 <= i < |roots| && roots[i] in dfs && v in dfs && dfs[roots[i]] <= dfs[v] &&
    (i + 1 == |roots| || (roots[i + 1] in dfs && dfs[v] < dfs[roots[i + 1]]))
  }

  /** Each block is strongly connected: its root and every member reach each other. */
  ghost predicate BlocksOk<T(!new)>(g: map<T, seq<T>>, dfs: map<T, nat>, open: seq<T>, roots: seq<T>) {
    forall i, v :: v in open && InBlock(dfs, roots, i, v) ==> Reach(g, roots[i], v) && Reach(g, v, roots[i])
  }

  /** No candidate root lies strictly after `w` and at or before `v` in discovery order. */
  ghost predicate NoRootBetween<T(!new)>(dfs: map<T, nat>, roots: seq<T>, w: T, v: T) {
    w in dfs && v in dfs &&
    forall i :: 0 <= i < |roots| && roots[i] in dfs ==> !(dfs[w] < dfs[roots[i]] <= dfs[v])
  }

  /** An edge v -> w that has been followed: w is visited and either finished or in v's block or a later one. */
  ghost predicate Scanned<T(!new)>(dfs: map<T, nat>, scc: map<T, nat>, roots: seq<T>, v: T, w: T) {
    w in dfs && (w in scc || NoRootBetween(dfs, roots, w, v))
  }

  /** Every edge out of an open node that is off the path has been followed. */
  ghost predicate FinishedOk<T(!new)>(g: map<T, seq<T>>, dfs: map<T, nat>, scc: map<T, nat>, roots: seq<T>,
                                open: seq<T>, path: seq<T>) {
    forall v, w :: v in open && v !in path && v in g && w in g[v] ==> Scanned(dfs, scc, roots, v, w)
  }

  /** The nodes with a component are closed under the edges. */
  ghost predicate SccClosed<T(!new)>(g: map<T, seq<T>>, scc: map<T, nat>) {
    forall v, w :: v in scc && v in g && w in g[v] ==> w in scc
  }

  /** Component numbers agree exactly when the nodes reach each other. */
  ghost predicate SccMeaning<T(!new)>(g: map<T, seq<T>>, scc: map<T, nat>) {
    forall x, y :: x in scc && y in scc ==> (scc[x] == scc[y] <==> Reach(g, x, y) && Reach(g, y, x))
  }

  ghost predicate Inv<T(!new)>(g: map<T, seq<T>>, dfs: map<T, nat>, scc: map<T, nat>, roots: seq<T>, open: seq<T>,
                         dfsCount: nat, sccCount: nat, path: seq<T>) {
    Domains(g, dfs, scc, dfsCount, sccCount) && OpenOk(dfs, scc, open) && PathOk(g, dfs, open, path) &&
    RootsOk(dfs, open, roots, path) && BlocksOk(g, dfs, open, roots) &&
    FinishedOk(g, dfs, scc, roots, open, path) && SccClosed(g, scc) && SccMeaning(g, scc)
  }

  // ---------------------------------------------------------------------
  // One lemma per step of the algorithm
  // ---------------------------------------------------------------------

  /** Visiting a fresh successor of the path's last node extends path, roots and open by it. */
  lemma PushStep<T(!new)>(g: map<T, seq<T>>, dfs: map<T, nat>, scc: map<T, nat>, roots: seq<T>, open: seq<T>,
                          dc: nat, sc: nat, path: seq<T>, t: T)
    requires Inv(g, dfs, scc, roots, open, dc, sc, path)
    requires t in g && t !in dfs
    requires |path| > 0 ==> path[|path| - 1] in g && t in g[path[|path| - 1]]
    ensures Inv(g, dfs[t := dc], scc, roots + [t], open + [t], dc + 1, sc, path + [t])
  {
    PushDomains(g, dfs, scc, dc, sc, t);
    PushOpen(dfs, scc, open, dc, t);
    PushPath(g, dfs, open, dc, path, t);
    PushRoots(dfs, open, roots, dc, path, t);
    PushBlocks(g, dfs, open, roots, dc, t);
    PushFinished(g, dfs, scc, roots, open, dc, path, t);
  }

  lemma PushDomains<T(!new)>(g: map<T, seq<T>>, dfs: map<T, nat>, scc: map<T, nat>, dc: nat, sc: nat, t: T)
    requires Domains(g, dfs, scc, dc, sc) && t in g && t !in dfs
    ensures Domains(g, dfs[t := dc], scc, dc + 1, sc)
  {
  }

  lemma PushOpen<T(!new)>(dfs: map<T, nat>, scc: map<T, nat>, open: seq<T>, dc: nat, t: T)
    requires OpenOk(dfs, scc, open) && scc.Keys <= dfs.Keys && t !in dfs
    requires forall v :: v in dfs ==> dfs[v] < dc
    ensures OpenOk(dfs[t := dc], scc, open + [t])
  {
    var dfs', open' := dfs[t := dc], open + [t];
    forall v ensures v in open' <==> v in dfs' && v !in scc {
      assert v in open' <==> v in open || v == t;
    }
    forall k | 0 <= k < |open'| ensures open'[k] in dfs' {
      if k < |open| { assert open'[k] == open[k]; }
    }
    forall a, b | 0 <= a < b < |open'| ensures dfs'[open'[a]] < dfs'[open'[b]] {
      assert open'[a] == open[a] && open[a] in dfs;
      if b < |open| { assert open'[b] == open[b]; }
    }
  }

  lemma PushPath<T(!new)>(g: map<T, seq<T>>, dfs: map<T, nat>, open: seq<T>, dc: nat, path: seq<T>, t: T)
    requires PathOk(g, dfs, open, path) && t !in dfs
    requires forall v :: v in dfs ==> dfs[v] < dc
    requires |path| > 0 ==> path[|path| - 1] in g && t in g[path[|path| - 1]]
    ensures PathOk(g, dfs[t := dc], open + [t], path + [t])
  {
    var dfs', open', path' := dfs[t := dc], open + [t], path + [t];
    forall k | 0 <= k < |path'| ensures path'[k] in open' && path'[k] in dfs' {
      if k < |path| { assert path'[k] == path[k]; }
    }
    forall a, b | 0 <= a < b < |path'| ensures dfs'[path'[a]] < dfs'[path'[b]] {
      assert path'[a] == path[a] && path[a] in dfs;
      if b < |path| { assert path'[b] == path[b]; }
    }
    forall k | 0 <= k < |path'| - 1 ensures path'[k] in g && path'[k + 1] in g[path'[k]] {
      assert path'[k] == path[k];
      if k + 1 < |path| { assert path'[k + 1] == path[k + 1]; }
    }
  }

  lemma PushRoots<T(!new)>(dfs: map<T, nat>, open: seq<T>, roots: seq<T>, dc: nat, path: seq<T>, t: T)
    requires RootsOk(dfs, open, roots, path) && t !in dfs
    requires forall k :: 0 <= k < |path| ==> path[k] in open
    requires forall v :: v in dfs ==> dfs[v] < dc
    ensures RootsOk(dfs[t := dc], open + [t], roots + [t], path + [t])
  {
    var dfs', open', roots', path' := dfs[t := dc], open + [t], roots + [t], path + [t];
    forall k | 0 <= k < |roots'| ensures roots'[k] in path' && roots'[k] in dfs' {
      if k < |roots| { assert roots'[k] == roots[k]; }
    }
    forall a, b | 0 <= a < b < |roots'| ensures dfs'[roots'[a]] < dfs'[roots'[b]] {
      assert roots'[a] == roots[a] && roots[a] in dfs;
      if b < |roots| { assert roots'[b] == roots[b]; }
    }
    if |open| > 0 {
      assert roots'[0] == roots[0] && open'[0] == open[0];
    }
  }

  lemma PushBlocks<T(!new)>(g: map<T, seq<T>>, dfs: map<T, nat>, open: seq<T>, roots: seq<T>, dc: nat, t: T)
    requires BlocksOk(g, dfs, open, roots) && SortedByDfs(dfs, roots) && t !in dfs
    requires forall v :: v in dfs ==> dfs[v] < dc
    requires forall v :: v in open ==> v in dfs
    ensures BlocksOk(g, dfs[t := dc], open + [t], roots + [t])
  {
    var dfs', open', roots' := dfs[t := dc], open + [t], roots + [t];
    forall i, v | v in open' && InBlock(dfs', roots', i, v)
      ensures Reach(g, roots'[i], v) && Reach(g, v, roots'[i])
    {
      if i == |roots| {
        assert v == t;
        ReachRefl(g, t);
      } else {
        assert v != t && v in open;
        assert roots'[i] == roots[i];
        if i + 1 < |roots| { assert roots'[i + 1] == roots[i + 1]; }
        assert InBlock(dfs, roots, i, v);
      }
    }
  }

  lemma PushFinished<T(!new)>(g: map<T, seq<T>>, dfs: map<T, nat>, scc: map<T, nat>, roots: seq<T>, open: seq<T>,
                              dc: nat, path: seq<T>, t: T)
    requires FinishedOk(g, dfs, scc, roots, open, path) && t !in dfs
    requires forall v :: v in dfs ==> dfs[v] < dc
    requires forall v :: v in open ==> v in dfs
    ensures FinishedOk(g, dfs[t := dc], scc, roots + [t], open + [t], path + [t])
  {
    var dfs', open', roots', path' := dfs[t := dc], open + [t], roots + [t], path + [t];
    forall v, w | v in open' && v !in path' && v in g && w in g[v]
      ensures Scanned(dfs', scc, roots', v, w)
    {
      assert v in open && v !in path;
      assert Scanned(dfs, scc, roots, v, w);
      if w !in scc {
        forall i | 0 <= i < |roots'| && roots'[i] in dfs'
          ensures !(dfs'[w] < dfs'[roots'[i]] <= dfs'[v])
        {
          if i < |roots| { assert roots'[i] == roots[i]; }
        }
      }
    }
  }

  /** The block an open node belongs to: the last candidate root discovered no later than it. */
  lemma FindBlock<T(!new)>(dfs: map<T, nat>, roots: seq<T>, v: T, lo: nat) returns (j: nat)
    requires SortedByDfs(dfs, roots) && v in dfs
    requires lo < |roots| && dfs[roots[lo]] <= dfs[v]
    ensures lo <= j && InBlock(dfs, roots, j, v)
  {
    j := lo;
    while j + 1 < |roots| && dfs[roots[j + 1]] <= dfs[v]
      invariant lo <= j < |roots| && dfs[roots[j]] <= dfs[v]
      decreases |roots| - j
    {
      j := j + 1;
    }
  }

  /** Of two path entries, the one discovered first comes first, and so reaches the other. */
  lemma PathOrderReach<T(!new)>(g: map<T, seq<T>>, dfs: map<T, nat>, open: seq<T>, path: seq<T>, x: T, y: T)
    requires PathOk(g, dfs, open, path)
    requires x in path && y in path && dfs[x] <= dfs[y]
    ensures Reach(g, x, y)
  {
    var a :| 0 <= a < |path| && path[a] == x;
    var b :| 0 <= b < |path| && path[b] == y;
    PathSegmentReach(g, path, a, b);
  }

  /** An open node is discovered no earlier than the first candidate root. */
  lemma FirstRootBelow<T(!new)>(dfs: map<T, nat>, scc: map<T, nat>, open: seq<T>, roots: seq<T>, path: seq<T>, u: T)
    requires OpenOk(dfs, scc, open) && RootsOk(dfs, open, roots, path)
    requires u in dfs && u !in scc
    ensures |roots| > 0 && roots[0] in dfs && dfs[roots[0]] <= dfs[u]
  {
    var a :| 0 <= a < |open| && open[a] == u;
    assert open[0] == roots[0];
  }

  /**
   * How many candidate roots survive an edge to open node `u`: those popped
   * from the top are exactly the ones discovered after `u`.
   */
  method KeptRoots<T>(dfs: map<T, nat>, roots: seq<T>, u: T) returns (k: nat)
    requires u in dfs && 0 < |roots| && (forall i :: 0 <= i < |roots| ==> roots[i] in dfs)
    requires dfs[roots[0]] <= dfs[u]
    ensures 0 < k <= |roots| && dfs[roots[k - 1]] <= dfs[u]
    ensures k == |roots| || dfs[u] < dfs[roots[k]]
  {
    k := |roots|;
    while dfs[u] < dfs[roots[k - 1]]
      invariant 0 < k <= |roots|
      invariant k == |roots| || dfs[u] < dfs[roots[k]]
      decreases k
    {
      k := k - 1;
    }
  }

  /**
   * Finding an edge from the path's last node t to an open node u merges every
   * block from u's block up to t's into one: the roots after u's block are dropped.
   */
  lemma CollapseStep<T(!new)>(g: map<T, seq<T>>, dfs: map<T, nat>, scc: map<T, nat>, roots: seq<T>, open: seq<T>,
                              dc: nat, sc: nat, path: seq<T>, u: T, k: nat)
    requires Inv(g, dfs, scc, roots, open, dc, sc, path)
    requires |path| > 0 && path[|path| - 1] in g && u in g[path[|path| - 1]]
    requires u in dfs && u !in scc
    requires 0 < k <= |roots| && dfs[roots[k - 1]] <= dfs[u]
    requires k == |roots| || dfs[u] < dfs[roots[k]]
    ensures Inv(g, dfs, scc, roots[..k], open, dc, sc, path)
    ensures Scanned(dfs, scc, roots[..k], path[|path| - 1], u)
  {
    var roots' := roots[..k];
    assert RootsOk(dfs, open, roots', path) by {
      forall a | 0 <= a < |roots'| ensures roots'[a] in path && roots'[a] in dfs {
        assert roots'[a] == roots[a];
      }
    }
    CollapseBlocks(g, dfs, open, roots, path, u, k);
    assert FinishedOk(g, dfs, scc, roots', open, path) by {
      forall v, w | v in open && v !in path && v in g && w in g[v]
        ensures Scanned(dfs, scc, roots', v, w)
      {
        assert Scanned(dfs, scc, roots, v, w);
        if w !in scc {
          forall i | 0 <= i < |roots'| && roots'[i] in dfs
            ensures !(dfs[w] < dfs[roots'[i]] <= dfs[v])
          {
            assert roots'[i] == roots[i];
          }
        }
      }
    }
    var t := path[|path| - 1];
    assert NoRootBetween(dfs, roots', u, t) by {
      assert t in open && t in dfs;
      forall i | 0 <= i < |roots'| && roots'[i] in dfs
        ensures !(dfs[u] < dfs[roots'[i]] <= dfs[t])
      {
        assert roots'[i] == roots[i];
        if i < k - 1 {
          assert dfs[roots[i]] < dfs[roots[k - 1]];
        }
      }
    }
  }

  lemma CollapseBlocks<T(!new)>(g: map<T, seq<T>>, dfs: map<T, nat>, open: seq<T>, roots: seq<T>, path: seq<T>,
                                u: T, k: nat)
    requires PathOk(g, dfs, open, path) && SortedByDfs(dfs, roots) && BlocksOk(g, dfs, open, roots)
    requires forall i :: 0 <= i < |roots| ==> roots[i] in path
    requires |path| > 0 && path[|path| - 1] in g && u in g[path[|path| - 1]]
    requires u in open && u in dfs
    requires 0 < k <= |roots| && dfs[roots[k - 1]] <= dfs[u]
    requires k == |roots| || dfs[u] < dfs[roots[k]]
    ensures BlocksOk(g, dfs, open, roots[..k])
  {
    var roots' := roots[..k];
    var t := path[|path| - 1];
    var r := roots[k - 1];
    assert InBlock(dfs, roots, k - 1, u);
    assert Reach(g, u, r);
    forall i, v | v in open && InBlock(dfs, roots', i, v)
      ensures Reach(g, roots'[i], v) && Reach(g, v, roots'[i])
    {
      assert roots'[i] == roots[i];
      if i < k - 1 {
        assert roots'[i + 1] == roots[i + 1];
        assert InBlock(dfs, roots, i, v);
      } else {
        var j := FindBlock(dfs, roots, v, k - 1);
        if j > k - 1 {
          var rj := roots[j];
          assert dfs[r] < dfs[rj];
          PathOrderReach(g, dfs, open, path, r, rj);
          ReachTrans(g, r, rj, v);
          assert t in path && dfs[rj] <= dfs[t] by {
            var b :| 0 <= b < |path| && path[b] == rj;
            if b < |path| - 1 { assert dfs[path[b]] < dfs[path[|path| - 1]]; }
          }
          PathOrderReach(g, dfs, open, path, rj, t);
          ReachEdge(g, t, u);
          ReachTrans(g, rj, t, u);
          ReachTrans(g, rj, u, r);
          ReachTrans(g, v, rj, r);
        }
      }
    }
  }

  /** Splitting a discovery-ordered sequence at an entry separates what was discovered before it from the rest. */
  lemma SplitByDfs<T(!new)>(dfs: map<T, nat>, s: seq<T>, idx: nat)
    requires SortedByDfs(dfs, s) && idx < |s|
    ensures forall v :: v in s[idx..] <==> v in s && v in dfs && dfs[v] >= dfs[s[idx]]
    ensures forall v :: v in s[..idx] <==> v in s && v in dfs && dfs[v] < dfs[s[idx]]
  {
    forall v | v in s && v in dfs
      ensures v in s[idx..] <==> dfs[v] >= dfs[s[idx]]
      ensures v in s[..idx] <==> dfs[v] < dfs[s[idx]]
    {
      var a :| 0 <= a < |s| && s[a] == v;
      if a < idx { assert s[..idx][a] == v; } else { assert s[idx..][a - idx] == v; }
      if v in s[idx..] {
        var b :| 0 <= b < |s[idx..]| && s[idx..][b] == v;
        assert s[idx + b] == v;
      }
      if v in s[..idx] {
        var b :| 0 <= b < idx && s[..idx][b] == v;
        assert s[b] == v;
      }
    }
  }

  /** A node whose edges are all followed and that is not the top root leaves the path. */
  lemma FinishStep<T(!new)>(g: map<T, seq<T>>, dfs: map<T, nat>, scc: map<T, nat>, roots: seq<T>, open: seq<T>,
                            dc: nat, sc: nat, path: seq<T>, t: T)
    requires Inv(g, dfs, scc, roots, open, dc, sc, path + [t])
    requires t in g && forall w :: w in g[t] ==> Scanned(dfs, scc, roots, t, w)
    requires |roots| > 0 && roots[|roots| - 1] != t
    ensures Inv(g, dfs, scc, roots, open, dc, sc, path)
  {
    var path' := path + [t];
    assert PathOk(g, dfs, open, path) by {
      forall k | 0 <= k < |path| ensures path[k] == path'[k] { }
    }
    assert RootsOk(dfs, open, roots, path) by {
      forall i | 0 <= i < |roots| ensures roots[i] in path {
        assert roots[i] in path';
      }
    }
    assert FinishedOk(g, dfs, scc, roots, open, path) by {
      forall v, w | v in open && v !in path && v in g && w in g[v]
        ensures Scanned(dfs, scc, roots, v, w)
      {
        if v != t { assert v !in path'; }
      }
    }
  }

  /** `scc'` numbers the nodes of `block` with `sc` and keeps every number `scc` already gave. */
  ghost predicate Numbered<T(!new)>(scc: map<T, nat>, scc': map<T, nat>, block: seq<T>, sc: nat) {
    (forall v :: v in scc' <==> v in scc || v in block) &&
    (forall v :: v in scc ==> scc'[v] == scc[v]) &&
    (forall v :: v in block ==> scc'[v] == sc)
  }

  /**
   * When the last path node t is the top root, the open nodes from t onwards
   * form a component: they get the next number and leave open, roots and path.
   */
  lemma PopStep<T(!new)>(g: map<T, seq<T>>, dfs: map<T, nat>, scc: map<T, nat>, roots: seq<T>, open: seq<T>,
                         dc: nat, sc: nat, path: seq<T>, t: T, idx: nat, scc': map<T, nat>)
    requires Inv(g, dfs, scc, roots, open, dc, sc, path + [t])
    requires t in g && forall w :: w in g[t] ==> Scanned(dfs, scc, roots, t, w)
    requires |roots| > 0 && roots[|roots| - 1] == t
    requires idx < |open| && open[idx] == t
    requires Numbered(scc, scc', open[idx..], sc)
    ensures Inv(g, dfs, scc', roots[..|roots| - 1], open[..idx], dc, sc + 1, path)
  {
    assert t in path + [t] && t in dfs;
    PopPrefix(g, dfs, open, path, t, idx);
    PopOpen(dfs, scc, scc', open, idx, sc);
    PopRoots(dfs, open, roots, path, t, idx);
    PopBlocks(g, dfs, open, roots, t, idx);
    PopFinished(g, dfs, scc, scc', roots, open, path, t, idx);
    PopClosed(g, dfs, scc, scc', roots, open, path, t, idx, sc);
    PopMeaning(g, dfs, scc, scc', roots, open, t, idx, sc);
  }

  lemma PopPrefix<T(!new)>(g: map<T, seq<T>>, dfs: map<T, nat>, open: seq<T>, path: seq<T>, t: T, idx: nat)
    requires PathOk(g, dfs, open, path + [t]) && SortedByDfs(dfs, open)
    requires idx < |open| && open[idx] == t
    ensures forall v :: v in path ==> v in dfs && dfs[v] < dfs[t]
    ensures PathOk(g, dfs, open[..idx], path)
  {
    var path' := path + [t];
    SplitByDfs(dfs, open, idx);
    forall v | v in path ensures v in dfs && dfs[v] < dfs[t] {
      var b :| 0 <= b < |path| && path[b] == v;
      assert path'[b] == v && path'[|path|] == t;
    }
    forall k | 0 <= k < |path| ensures path[k] in open[..idx] {
      assert path[k] == path'[k] && path[k] in path;
    }
    forall a, b | 0 <= a < b < |path| ensures dfs[path[a]] < dfs[path[b]] {
      assert path[a] == path'[a] && path[b] == path'[b];
    }
    forall k | 0 <= k < |path| - 1 ensures path[k] in g && path[k + 1] in g[path[k]] {
      assert path[k] == path'[k] && path[k + 1] == path'[k + 1];
    }
  }

  lemma PopOpen<T(!new)>(dfs: map<T, nat>, scc: map<T, nat>, scc': map<T, nat>, open: seq<T>, idx: nat, sc: nat)
    requires OpenOk(dfs, scc, open) && idx < |open|
    requires Numbered(scc, scc', open[idx..], sc)
    ensures OpenOk(dfs, scc', open[..idx])
  {
    var open' := open[..idx];
    SplitByDfs(dfs, open, idx);
    forall a, b | 0 <= a < b < |open'| ensures dfs[open'[a]] < dfs[open'[b]] {
      assert open'[a] == open[a] && open'[b] == open[b];
    }
    forall k | 0 <= k < |open'| ensures open'[k] in dfs {
      assert open'[k] == open[k];
    }
  }

  lemma PopRoots<T(!new)>(dfs: map<T, nat>, open: seq<T>, roots: seq<T>, path: seq<T>, t: T, idx: nat)
    requires RootsOk(dfs, open, roots, path + [t]) && SortedByDfs(dfs, open)
    requires |roots| > 0 && roots[|roots| - 1] == t
    requires idx < |open| && open[idx] == t
    ensures RootsOk(dfs, open[..idx], roots[..|roots| - 1], path)
  {
    var roots' := roots[..|roots| - 1];
    forall i | 0 <= i < |roots'| ensures roots'[i] in path && roots'[i] in dfs {
      assert roots'[i] == roots[i];
      assert dfs[roots[i]] < dfs[roots[|roots| - 1]];
      assert roots[i] in path + [t];
    }
    forall a, b | 0 <= a < b < |roots'| ensures dfs[roots'[a]] < dfs[roots'[b]] {
      assert roots'[a] == roots[a] && roots'[b] == roots[b];
    }
    if idx > 0 {
      assert open[0] != t by {
        assert dfs[open[0]] < dfs[open[idx]];
      }
      assert roots'[0] == roots[0];
    }
  }

  lemma PopBlocks<T(!new)>(g: map<T, seq<T>>, dfs: map<T, nat>, open: seq<T>, roots: seq<T>, t: T, idx: nat)
    requires BlocksOk(g, dfs, open, roots) && SortedByDfs(dfs, open) && SortedByDfs(dfs, roots)
    requires |roots| > 0 && roots[|roots| - 1] == t
    requires idx < |open| && open[idx] == t
    ensures BlocksOk(g, dfs, open[..idx], roots[..|roots| - 1])
  {
    var roots' := roots[..|roots| - 1];
    SplitByDfs(dfs, open, idx);
    forall i, v | v in open[..idx] && InBlock(dfs, roots', i, v)
      ensures Reach(g, roots'[i], v) && Reach(g, v, roots'[i])
    {
      assert roots'[i] == roots[i];
      if i + 1 < |roots'| { assert roots'[i + 1] == roots[i + 1]; }
      assert InBlock(dfs, roots, i, v);
    }
  }

  lemma PopFinished<T(!new)>(g: map<T, seq<T>>, dfs: map<T, nat>, scc: map<T, nat>, scc': map<T, nat>,
                             roots: seq<T>, open: seq<T>, path: seq<T>, t: T, idx: nat)
    requires FinishedOk(g, dfs, scc, roots, open, path + [t]) && SortedByDfs(dfs, open)
    requires forall v :: v in scc ==> v in scc'
    requires |roots| > 0 && idx < |open| && open[idx] == t
    ensures FinishedOk(g, dfs, scc', roots[..|roots| - 1], open[..idx], path)
  {
    var roots' := roots[..|roots| - 1];
    SplitByDfs(dfs, open, idx);
    forall v, w | v in open[..idx] && v !in path && v in g && w in g[v]
      ensures Scanned(dfs, scc', roots', v, w)
    {
      assert v != t && v !in path + [t];
      assert Scanned(dfs, scc, roots, v, w);
      if w !in scc {
        forall i | 0 <= i < |roots'| && roots'[i] in dfs
          ensures !(dfs[w] < dfs[roots'[i]] <= dfs[v])
        {
          assert roots'[i] == roots[i];
        }
      }
    }
  }

  lemma PopClosed<T(!new)>(g: map<T, seq<T>>, dfs: map<T, nat>, scc: map<T, nat>, scc': map<T, nat>,
                           roots: seq<T>, open: seq<T>, path: seq<T>, t: T, idx: nat, sc: nat)
    requires OpenOk(dfs, scc, open) && SccClosed(g, scc) && FinishedOk(g, dfs, scc, roots, open, path + [t])
    requires t in dfs && forall v :: v in path ==> v in dfs && dfs[v] < dfs[t]
    requires t in g && forall w :: w in g[t] ==> Scanned(dfs, scc, roots, t, w)
    requires |roots| > 0 && roots[|roots| - 1] == t
    requires idx < |open| && open[idx] == t
    requires Numbered(scc, scc', open[idx..], sc)
    ensures SccClosed(g, scc')
  {
    SplitByDfs(dfs, open, idx);
    forall v, w | v in scc' && v in g && w in g[v] ensures w in scc' {
      if v !in scc {
        assert v in open[idx..];
        if v != t {
          assert v !in path + [t];
        }
        assert Scanned(dfs, scc, roots, v, w);
      }
    }
  }

  lemma PopMeaning<T(!new)>(g: map<T, seq<T>>, dfs: map<T, nat>, scc: map<T, nat>, scc': map<T, nat>,
                            roots: seq<T>, open: seq<T>, t: T, idx: nat, sc: nat)
    requires scc.Keys <= dfs.Keys && (forall v :: v in scc ==> scc[v] < sc) && OpenOk(dfs, scc, open)
    requires SccClosed(g, scc) && SccMeaning(g, scc) && BlocksOk(g, dfs, open, roots)
    requires |roots| > 0 && roots[|roots| - 1] == t
    requires idx < |open| && open[idx] == t
    requires Numbered(scc, scc', open[idx..], sc)
    ensures SccMeaning(g, scc')
  {
    var block := open[idx..];
    SplitByDfs(dfs, open, idx);
    assert forall x :: x in block ==> Reach(g, t, x) && Reach(g, x, t) by {
      forall x | x in block ensures Reach(g, t, x) && Reach(g, x, t) {
        assert InBlock(dfs, roots, |roots| - 1, x);
      }
    }
    forall x, y | x in scc' && y in scc'
      ensures scc'[x] == scc'[y] <==> Reach(g, x, y) && Reach(g, y, x)
    {
      if x in block && y in block {
        ReachTrans(g, x, t, y);
        ReachTrans(g, y, t, x);
      } else if x in block {
        if Reach(g, y, x) { ClosedSetReach(g, scc, y, x); }
      } else if y in block {
        if Reach(g, x, y) { ClosedSetReach(g, scc, x, y); }
      }
    }
  }

  /** Once followed, an edge stays followed while nodes are only added and roots only dropped from the top. */
  lemma ScannedStable<T(!new)>(dfs: map<T, nat>, scc: map<T, nat>, roots: seq<T>,
                               dfs': map<T, nat>, scc': map<T, nat>, roots': seq<T>, v: T, w: T)
    requires Scanned(dfs, scc, roots, v, w) && v in dfs
    requires forall x :: x in dfs ==> x in dfs' && dfs'[x] == dfs[x]
    requires forall x :: x in scc ==> x in scc'
    requires |roots'| <= |roots| && roots' == roots[..|roots'|]
    requires forall i :: 0 <= i < |roots| ==> roots[i] in dfs
    ensures Scanned(dfs', scc', roots', v, w)
  {
    if w !in scc' {
      forall i | 0 <= i < |roots'| && roots'[i] in dfs'
        ensures !(dfs'[w] < dfs'[roots'[i]] <= dfs'[v])
      {
        assert roots'[i] == roots[i];
      }
    }
  }

  /** Every number `m` gives is still given, unchanged, by `m'`. */
  ghost predicate Grows<T(!new)>(m: map<T, nat>, m': map<T, nat>) {
    forall v :: v in m ==> v in m' && m'[v] == m[v]
  }

  /** Numbers are only added, never changed, and candidate roots are only dropped from the top. */
  ghost predicate Extends<T(!new)>(dfs: map<T, nat>, scc: map<T, nat>, roots: seq<T>,
                                   dfs': map<T, nat>, scc': map<T, nat>, roots': seq<T>) {
    Grows(dfs, dfs') && Grows(scc, scc') && |roots'| <= |roots| && roots' == roots[..|roots'|]
  }

  lemma FreshNumber<T(!new)>(dfs: map<T, nat>, scc: map<T, nat>, roots: seq<T>, t: T, n: nat)
    requires t !in dfs
    ensures Extends(dfs, scc, roots, dfs[t := n], scc, roots)
  {
  }

  lemma ExtendsTrans<T(!new)>(dfs: map<T, nat>, scc: map<T, nat>, roots: seq<T>,
                               dfs1: map<T, nat>, scc1: map<T, nat>, roots1: seq<T>,
                               dfs2: map<T, nat>, scc2: map<T, nat>, roots2: seq<T>)
    requires Extends(dfs, scc, roots, dfs1, scc1, roots1) && Extends(dfs1, scc1, roots1, dfs2, scc2, roots2)
    ensures Extends(dfs, scc, roots, dfs2, scc2, roots2)
  {
  }

  /** The edges followed so far stay followed across a step that only extends the state. */
  lemma ScannedPrefixStable<T(!new)>(dfs: map<T, nat>, scc: map<T, nat>, roots: seq<T>,
                                     dfs': map<T, nat>, scc': map<T, nat>, roots': seq<T>,
                                     t: T, edges: seq<T>, i: nat)
    requires Extends(dfs, scc, roots, dfs', scc', roots') && t in dfs
    requires forall k :: 0 <= k < |roots| ==> roots[k] in dfs
    requires i < |edges| && Scanned(dfs', scc', roots', t, edges[i])
    requires forall j :: 0 <= j < i ==> Scanned(dfs, scc, roots, t, edges[j])
    ensures forall j :: 0 <= j < i + 1 ==> Scanned(dfs', scc', roots', t, edges[j])
  {
    forall j | 0 <= j < i ensures Scanned(dfs', scc', roots', t, edges[j]) {
      ScannedStable(dfs, scc, roots, dfs', scc', roots', t, edges[j]);
    }
  }

  lemma IndexOf<T>(s: seq<T>, x: T) returns (i: nat)
    requires x in s
    ensures i < |s| && s[i] == x
  {
    i :| 0 <= i < |s| && s[i] == x;
  }

  lemma {:induction false} SubsetCard<T>(a: set<T>, b: set<T>)
    requires a <= b
    ensures |a| <= |b|
    decreases a
  {
    if a != {} {
      var x :| x in a;
      SubsetCard(a - {x}, b - {x});
    }
  }

  lemma NoMoreUnvisited<T>(keys: set<T>, d0: set<T>, d1: set<T>)
    requires d0 <= d1
    ensures |keys - d1| <= |keys - d0|
  {
    SubsetCard(keys - d1, keys - d0);
  }

  /** Leaving `t` after its visit: the whole visit only extends the state it started from. */
  lemma LeaveExtends<T(!new)>(d0: map<T, nat>, s0: map<T, nat>, r0: seq<T>, t: T,
                              d1: map<T, nat>, s1: map<T, nat>, r1: seq<T>, s2: map<T, nat>, r2: seq<T>)
    requires Extends(d0, s0, r0 + [t], d1, s1, r1) && 0 < |r1|
    requires Grows(s1, s2) && |r2| <= |r1| && r2 == r1[..|r2|]
    requires |r2| == |r1| ==> r1[|r2| - 1] != t
    ensures Extends(d0, s0, r0, d1, s2, r2)
  {
    DropTop(r0, t, r1, r2);
  }

  lemma DropTop<T>(r0: seq<T>, t: T, r1: seq<T>, r2: seq<T>)
    requires 0 < |r1| <= |r0| + 1 && r1 == (r0 + [t])[..|r1|]
    requires |r2| <= |r1| && r2 == r1[..|r2|]
    requires |r2| == |r1| ==> r1[|r2| - 1] != t
    ensures |r2| <= |r0| && r2 == r0[..|r2|]
  {
  }

  lemma FewerUnvisited<T>(keys: set<T>, d0: set<T>, d1: set<T>, t: T)
    requires d0 <= d1 && t in d1 && t !in d0 && t in keys
    ensures |keys - d1| < |keys - d0|
  {
    SubsetCard(keys - d1, (keys - d0) - {t});
  }

  /**
   * The search state of one run. `dfs` and `scc` hold the discovery and
   * component numbers given so far, `dfsCount` and `sccCount` the next ones;
   * `roots` are the candidate component roots and `open` the visited nodes
   * still without a component, both in discovery order.
   */
  class CycleFinder<T(==,!new)> {
    const g: map<T, seq<T>>
    var dfs: map<T, nat>
    var scc: map<T, nat>
    var roots: seq<T>
    var open: seq<T>
    var dfsCount: nat
    var sccCount: nat

    /** The invariant while the depth-first search is at the end of `path`. */
    ghost predicate Valid(path: seq<T>)
      reads this
    {
      Closed(g) && Inv(g, dfs, scc, roots, open, dfsCount, sccCount, path)
    }

    constructor (g: map<T, seq<T>>)
      requires Closed(g)
      ensures this.g == g && dfs == map[] && scc == map[] && roots == [] && open == []
      ensures dfsCount == 0 && sccCount == 0 && Valid([])
    {
      this.g := g;
      dfs, scc := map[], map[];
      roots, open := [], [];
      dfsCount, sccCount := 0, 0;
    }

    /** Depth-first visit of `t`, reached from the last node of `path`. */
    method Visit(t: T, ghost path: seq<T>)
      requires Valid(path) && t in g && t !in dfs
      requires |path| > 0 ==> path[|path| - 1] in g && t in g[path[|path| - 1]]
      modifies this
      ensures Valid(path) && t in dfs && dfs[t] == old(dfsCount)
      ensures Extends(old(dfs), old(scc), old(roots), dfs, scc, roots)
      decreases |g.Keys - dfs.Keys|, 0
    {
      Push(t, path);
      ghost var dfs1, scc1 := dfs, scc;
      FewerUnvisited(g.Keys, old(dfs).Keys, dfs.Keys, t);
      FreshNumber(old(dfs), old(scc), old(roots), t, old(dfsCount));
      assert roots[..|roots| - 1] == old(roots);
      Explore(t, path);
      ExtendsTrans(old(dfs), old(scc), old(roots), dfs1, scc1, old(roots), dfs, scc, roots);
    }

    /** Follow every edge out of the freshly pushed `t`, then leave it. */
    method Explore(t: T, ghost path: seq<T>)
      requires Valid(path + [t]) && t in g && t in dfs && |roots| > 0 && roots[|roots| - 1] == t
      modifies this
      ensures Valid(path) && t in dfs && dfs[t] == old(dfs)[t]
      ensures Extends(old(dfs), old(scc), old(roots)[..|old(roots)| - 1], dfs, scc, roots)
      decreases |g.Keys - dfs.Keys|, 3
    {
      ghost var r0 := roots[..|roots| - 1];
      assert roots == r0 + [t];
      FollowAll(t, path);
      ghost var scc2, rs := scc, roots;
      Leave(t, path);
      LeaveExtends(old(dfs), old(scc), r0, t, dfs, scc2, rs, scc, roots);
    }

    /** All edges out of `t` are followed: close its component if it is the top root, else step back. */
    method Leave(t: T, ghost path: seq<T>)
      requires Valid(path + [t]) && t in g && forall w :: w in g[t] ==> Scanned(dfs, scc, roots, t, w)
      modifies this`roots, this`open, this`scc, this`sccCount
      ensures Valid(path) && Grows(old(scc), scc)
      ensures 0 < |old(roots)| && |roots| <= |old(roots)| && roots == old(roots)[..|roots|]
      ensures |roots| == |old(roots)| ==> old(roots)[|roots| - 1] != t
    {
      assert t in path + [t];
      if t == roots[|roots| - 1] {
        CloseComponent(t, path);
      } else {
        FinishStep(g, dfs, scc, roots, open, dfsCount, sccCount, path, t);
      }
    }

    /** Follow every edge out of `t`, the last node of the path, in order. */
    method FollowAll(t: T, ghost path: seq<T>)
      requires Valid(path + [t]) && t in g && t in dfs
      modifies this
      ensures Valid(path + [t]) && t in dfs && dfs[t] == old(dfs)[t]
      ensures Extends(old(dfs), old(scc), old(roots), dfs, scc, roots)
      ensures forall w :: w in g[t] ==> Scanned(dfs, scc, roots, t, w)
      decreases |g.Keys - dfs.Keys|, 2
    {
      ghost var here := path + [t];
      var edges := g[t];
      var i := 0;
      while i < |edges|
        invariant 0 <= i <= |edges|
        invariant Valid(here) && t in dfs && dfs[t] == old(dfs)[t]
        invariant Extends(old(dfs), old(scc), old(roots), dfs, scc, roots)
        invariant forall j :: 0 <= j < i ==> Scanned(dfs, scc, roots, t, edges[j])
      {
        ghost var dfs0, scc0, roots0 := dfs, scc, roots;
        NoMoreUnvisited(g.Keys, old(dfs).Keys, dfs.Keys);
        Follow(t, edges[i], here);
        ExtendsTrans(old(dfs), old(scc), old(roots), dfs0, scc0, roots0, dfs, scc, roots);
        ScannedPrefixStable(dfs0, scc0, roots0, dfs, scc, roots, t, edges, i);
        i := i + 1;
      }
    }

    /** Number `t` and put it on the path, on open and on the candidate roots. */
    method Push(t: T, ghost path: seq<T>)
      requires Valid(path) && t in g && t !in dfs
      requires |path| > 0 ==> path[|path| - 1] in g && t in g[path[|path| - 1]]
      modifies this`dfs, this`dfsCount, this`roots, this`open
      ensures Valid(path + [t])
      ensures dfs == old(dfs)[t := old(dfsCount)] && dfsCount == old(dfsCount) + 1
      ensures roots == old(roots) + [t] && open == old(open) + [t]
      ensures Extends(old(dfs), scc, old(roots) + [t], dfs, scc, roots)
    {
      PushStep(g, dfs, scc, roots, open, dfsCount, sccCount, path, t);
      FreshNumber(dfs, scc, roots + [t], t, dfsCount);
      dfs := dfs[t := dfsCount];
      dfsCount := dfsCount + 1;
      roots := roots + [t];
      open := open + [t];
    }

    /** Follow the edge from `t`, the last node of `here`, to `u`. */
    method Follow(t: T, u: T, ghost here: seq<T>)
      requires Valid(here) && |here| > 0 && here[|here| - 1] == t && t in g && u in g[t]
      modifies this
      ensures Valid(here) && Scanned(dfs, scc, roots, t, u)
      ensures Extends(old(dfs), old(scc), old(roots), dfs, scc, roots)
      decreases |g.Keys - dfs.Keys|, 1
    {
      if u !in dfs {
        Visit(u, here);
      } else if u !in scc {
        Collapse(u, here);
      }
    }

    /**
     * An edge from the last path node to an open node `u`: drop the candidate
     * roots discovered after `u`, merging their blocks into `u`'s.
     */
    method Collapse(u: T, ghost here: seq<T>)
      requires Valid(here) && |here| > 0 && here[|here| - 1] in g && u in g[here[|here| - 1]]
      requires u in dfs && u !in scc
      modifies this`roots
      ensures Inv(g, dfs, scc, roots, open, dfsCount, sccCount, here) && Scanned(dfs, scc, roots, here[|here| - 1], u)
      ensures |roots| <= |old(roots)| && roots == old(roots)[..|roots|]
    {
      FirstRootBelow(dfs, scc, open, roots, here, u);
      var k := KeptRoots(dfs, roots, u);
      CollapseStep(g, dfs, scc, roots, open, dfsCount, sccCount, here, u, k);
      roots := roots[..k];
    }

    /** `t` is the top root once its edges are followed: the open nodes from `t` on form a component. */
    method CloseComponent(t: T, ghost path: seq<T>)
      requires Valid(path + [t])
      requires t in g && forall w :: w in g[t] ==> Scanned(dfs, scc, roots, t, w)
      requires |roots| > 0 && roots[|roots| - 1] == t
      modifies this`roots, this`open, this`scc, this`sccCount
      ensures Inv(g, dfs, scc, roots, open, dfsCount, sccCount, path) && roots == old(roots)[..|old(roots)| - 1]
      ensures Grows(old(scc), scc)
    {
      ghost var idx := IndexOf(open, t);
      var o, s := PopOpen(t, idx);
      PopStep(g, dfs, scc, roots, open, dfsCount, sccCount, path, t, idx, s);
      roots, open, scc, sccCount := roots[..|roots| - 1], o, s, sccCount + 1;
    }

    /** Pop `open` down to and including `t`, giving every popped node the next component number. */
    method PopOpen(t: T, ghost idx: nat) returns (o: seq<T>, s: map<T, nat>)
      requires SortedByDfs(dfs, open) && (forall v :: v in open ==> v !in scc)
      requires idx < |open| && open[idx] == t
      ensures o == open[..idx] && Numbered(scc, s, open[idx..], sccCount) && Grows(scc, s)
    {
      o, s := open, scc;
      var done := false;
      while !done
        invariant |o| <= |open| && o == open[..|o|]
        invariant done ==> |o| == idx
        invariant !done ==> idx < |o|
        invariant Numbered(scc, s, open[|o|..], sccCount) && Grows(scc, s)
        decreases |o|
      {
        var u := o[|o| - 1];
        o := o[..|o| - 1];
        s := s[u := sccCount];
        done := u == t;
      }
    }

    /** Visit, in order, every node of `order` that no earlier visit reached. */
    method Run(order: seq<T>)
      requires Valid([]) && forall k :: 0 <= k < |order| ==> order[k] in g
      modifies this
      ensures Valid([]) && dfs.Keys == scc.Keys
      ensures forall k :: 0 <= k < |order| ==> order[k] in scc
    {
      for i := 0 to |order|
        invariant Valid([])
        invariant forall k :: 0 <= k < i ==> order[k] in dfs
      {
        if order[i] !in dfs {
          ghost var dfs0 := dfs;
          Visit(order[i], []);
          assert Grows(dfs0, dfs);
        }
      }
    }
  }

  /**
   * Number the strongly connected components of `g` reachable from `order`:
   * every node of `order` gets a number, whatever a numbered node reaches is
   * numbered too, and two numbered nodes share a number exactly when each
   * reaches the other.
   */
  method FindCyclicClasses<T(==,!new)>(g: map<T, seq<T>>, order: seq<T>) returns (scc: map<T, nat>)
    requires Closed(g) && forall k :: 0 <= k < |order| ==> order[k] in g
    ensures forall k :: 0 <= k < |order| ==> order[k] in scc
    ensures scc.Keys <= g.Keys
    ensures forall v, w :: v in scc && v in g && w in g[v] ==> w in scc
    ensures forall x, y :: x in scc && y in scc ==> (scc[x] == scc[y] <==> Reach(g, x, y) && Reach(g, y, x))
  {
    var finder := new CycleFinder(g);
    finder.Run(order);
    scc := finder.scc;
  }
}
