/** What the walk of `print_pstree` covers: the records reachable from the
    root along child links, each at the depth of its distance from the root,
    and, when every record has at most one parent, each exactly once. */
module Reach {
  import opened Pstree
  import opened Render

  /** A chain of child links through the list. */
  ghost predicate IsPath(ps: seq<Process>, path: seq<nat>)
  {
    && |path| > 0
    && (forall k :: 0 <= k < |path| ==> path[k] < |ps|)
    && (forall k :: 0 <= k < |path| - 1 ==> path[k + 1] in ps[path[k]].children)
  }

  /** Some chain of child links leads from record i to record x. */
  ghost predicate Reaches(ps: seq<Process>, i: nat, x: nat)
  {
    exists path :: IsPath(ps, path) && path[0] == i && path[|path| - 1] == x
  }

  /** The records reachable from record i along child links, i included. */
  ghost function Reachable(ps: seq<Process>, i: nat): set<nat>
  {
    set x | 0 <= x < |ps| && Reaches(ps, i, x)
  }

  /** Record x appears somewhere in the walk. */
  ghost predicate Visits(w: seq<Entry>, x: nat)
  {
    exists d :: Entry(x, d) in w
  }

  /** Each record appears in at most one entry. */
  ghost predicate NoRepeats(w: seq<Entry>)
  {
    forall a, b :: 0 <= a < b < |w| ==> w[a].node != w[b].node
  }

  /** Every record stands in at most one place of all child lists together. */
  ghost predicate UniqueParents(ps: seq<Process>)
  {
    forall i1, k1, i2, k2 ::
      && 0 <= i1 < |ps| && 0 <= k1 < |ps[i1].children|
      && 0 <= i2 < |ps| && 0 <= k2 < |ps[i2].children|
      && ps[i1].children[k1] == ps[i2].children[k2]
      ==> i1 == i2 && k1 == k2
  }

  /** A link in front of a path extends it. */
  lemma ConsPath(ps: seq<Process>, i: nat, tail: seq<nat>) returns (path: seq<nat>)
    requires i < |ps| && IsPath(ps, tail) && tail[0] in ps[i].children
    ensures path == [i] + tail && IsPath(ps, path)
  {
    path := [i] + tail;
    forall m | 0 <= m < |path| - 1
      ensures path[m + 1] in ps[path[m]].children
    {
      if m > 0 {
        assert path[m] == tail[m - 1] && path[m + 1] == tail[m];
      }
    }
  }

  /** A path without its first node is still a path. */
  lemma PathTail(ps: seq<Process>, path: seq<nat>)
    requires IsPath(ps, path) && |path| > 1
    ensures IsPath(ps, path[1..])
  {
    var tail := path[1..];
    forall m | 0 <= m < |tail| - 1
      ensures tail[m + 1] in ps[tail[m]].children
    {
      assert tail[m] == path[m + 1] && tail[m + 1] == path[m + 2];
    }
  }

  // ---------------------------------------------------------------------
  // Walks of children

  /** An entry of the children's walks from position k0 comes from the walk
      of one child at or after k0. */
  lemma {:induction false} WalkChildrenSplit(ps: seq<Process>, rank: map<nat, nat>, i: nat, k0: nat, depth: nat, e: Entry)
    returns (k: nat)
    requires Graded(ps, rank) && i in rank && k0 <= |ps[i].children|
    requires e in WalkChildren(ps, rank, i, k0, depth)
    ensures k0 <= k < |ps[i].children| && e in Walk(ps, rank, ps[i].children[k], depth)
    decreases |ps[i].children| - k0
  {
    var c := ps[i].children[k0];
    if e in Walk(ps, rank, c, depth) {
      k := k0;
    } else {
      k := WalkChildrenSplit(ps, rank, i, k0 + 1, depth, e);
    }
  }

  /** The walk of the child at k is part of the children's walks from k0. */
  lemma {:induction false} WalkChildrenCovers(ps: seq<Process>, rank: map<nat, nat>, i: nat, k0: nat, k: nat, depth: nat, e: Entry)
    requires Graded(ps, rank) && i in rank && k0 <= k < |ps[i].children|
    requires e in Walk(ps, rank, ps[i].children[k], depth)
    ensures e in WalkChildren(ps, rank, i, k0, depth)
    decreases k - k0
  {
    if k0 < k {
      WalkChildrenCovers(ps, rank, i, k0 + 1, k, depth, e);
    }
  }

  // ---------------------------------------------------------------------
  // The walk covers exactly the reachable records

  /** Every entry of the walk ends a path from the start node whose length
      is the entry's depth below the start. */
  lemma {:induction false} WalkEntryPath(ps: seq<Process>, rank: map<nat, nat>, i: nat, depth: nat, e: Entry)
    returns (path: seq<nat>)
    requires Graded(ps, rank) && i in rank && e in Walk(ps, rank, i, depth)
    ensures IsPath(ps, path) && path[0] == i && path[|path| - 1] == e.node
    ensures |path| == e.depth - depth + 1
    decreases rank[i]
  {
    var w := Walk(ps, rank, i, depth);
    if e == Entry(i, depth) {
      path := [i];
    } else {
      var rest := WalkChildren(ps, rank, i, 0, depth + 1);
      assert w == [Entry(i, depth)] + rest;
      assert e in rest;
      var k := WalkChildrenSplit(ps, rank, i, 0, depth + 1, e);
      var c := ps[i].children[k];
      var tail := WalkEntryPath(ps, rank, c, depth + 1, e);
      assert c in ps[i].children;
      path := ConsPath(ps, i, tail);
    }
  }

  /** Every path from the start node ends at a record the walk visits, at
      the depth of the path's length. */
  lemma {:induction false} PathInWalk(ps: seq<Process>, rank: map<nat, nat>, path: seq<nat>, depth: nat)
    requires Graded(ps, rank) && IsPath(ps, path) && path[0] in rank
    ensures Entry(path[|path| - 1], depth + |path| - 1) in Walk(ps, rank, path[0], depth)
    decreases |path|
  {
    var i := path[0];
    if |path| > 1 {
      var c := path[1];
      assert c in ps[i].children;
      var k :| 0 <= k < |ps[i].children| && ps[i].children[k] == c;
      var tail := path[1..];
      PathTail(ps, path);
      PathInWalk(ps, rank, tail, depth + 1);
      var e := Entry(path[|path| - 1], depth + |path| - 1);
      assert e in Walk(ps, rank, c, depth + 1);
      WalkChildrenCovers(ps, rank, i, 0, k, depth + 1, e);
      assert Walk(ps, rank, i, depth) == [Entry(i, depth)] + WalkChildren(ps, rank, i, 0, depth + 1);
    }
  }

  /** The walk from a node visits exactly the records reachable from it, and
      prints each at the length of a path from the node to it. */
  lemma WalkVisitsReachable(ps: seq<Process>, rank: map<nat, nat>, i: nat, x: nat)
    requires Graded(ps, rank) && i in rank
    ensures Visits(Walk(ps, rank, i, 0), x) <==> x in Reachable(ps, i)
    ensures forall d: nat :: Entry(x, d) in Walk(ps, rank, i, 0) ==>
              exists path :: IsPath(ps, path) && path[0] == i && path[|path| - 1] == x && |path| == d + 1
  {
    var w := Walk(ps, rank, i, 0);
    forall d: nat | Entry(x, d) in w
      ensures exists path :: IsPath(ps, path) && path[0] == i && path[|path| - 1] == x && |path| == d + 1
    {
      var path := WalkEntryPath(ps, rank, i, 0, Entry(x, d));
    }
    if Visits(w, x) {
      var d :| Entry(x, d) in w;
      var path := WalkEntryPath(ps, rank, i, 0, Entry(x, d));
    }
    if x in Reachable(ps, i) {
      var path :| IsPath(ps, path) && path[0] == i && path[|path| - 1] == x;
      PathInWalk(ps, rank, path, 0);
      assert Entry(x, |path| - 1) in w;
    }
  }

  // ---------------------------------------------------------------------
  // With at most one parent per record, nothing is printed twice

  /** A visited record other than the start has its parent visited too. */
  lemma {:induction false} ParentVisited(ps: seq<Process>, rank: map<nat, nat>, a: nat, da: nat, x: nat)
    returns (p: nat, k: nat)
    requires Graded(ps, rank) && a in rank
    requires Visits(Walk(ps, rank, a, da), x) && x != a
    ensures p < |ps| && k < |ps[p].children| && ps[p].children[k] == x
    ensures Visits(Walk(ps, rank, a, da), p)
    decreases rank[a]
  {
    var w := Walk(ps, rank, a, da);
    var d :| Entry(x, d) in w;
    assert Entry(x, d) in w[1..];
    assert w[1..] == WalkChildren(ps, rank, a, 0, da + 1);
    var m := WalkChildrenSplit(ps, rank, a, 0, da + 1, Entry(x, d));
    var c := ps[a].children[m];
    if x == c {
      p, k := a, m;
      assert w[0] == Entry(a, da);
    } else {
      var wc := Walk(ps, rank, c, da + 1);
      assert Visits(wc, x);
      p, k := ParentVisited(ps, rank, c, da + 1, x);
      var dp :| Entry(p, dp) in wc;
      WalkChildrenCovers(ps, rank, a, 0, m, da + 1, Entry(p, dp));
      assert Entry(p, dp) in w;
    }
  }

  /** Two walks that share a record start on one branch: one start lies in
      the other's walk. */
  lemma ShareMeansNested(ps: seq<Process>, rank: map<nat, nat>, a: nat, da: nat, b: nat, db: nat, x: nat)
    requires Graded(ps, rank) && UniqueParents(ps) && a in rank && b in rank
    requires Visits(Walk(ps, rank, a, da), x) && Visits(Walk(ps, rank, b, db), x)
    ensures Visits(Walk(ps, rank, a, da), b) || Visits(Walk(ps, rank, b, db), a)
    decreases rank[a] - rank[x]
  {
    var wa, wb := Walk(ps, rank, a, da), Walk(ps, rank, b, db);
    var d :| Entry(x, d) in wa;
    assert rank[x] <= rank[a];
    if x == b {
    } else if x == a {
    } else {
      var p1, k1 := ParentVisited(ps, rank, a, da, x);
      var p2, k2 := ParentVisited(ps, rank, b, db, x);
      var dp :| Entry(p1, dp) in wa;
      assert rank[p1] <= rank[a];
      assert rank[x] < rank[p1];
      ShareMeansNested(ps, rank, a, da, b, db, p1);
    }
  }

  /** The walks of two different entries of one child list share nothing. */
  lemma SiblingWalksDisjoint(ps: seq<Process>, rank: map<nat, nat>, i: nat, k1: nat, k2: nat, depth: nat, x: nat)
    requires Graded(ps, rank) && UniqueParents(ps) && i in rank
    requires k1 < |ps[i].children| && k2 < |ps[i].children| && k1 != k2
    ensures !(Visits(Walk(ps, rank, ps[i].children[k1], depth), x) && Visits(Walk(ps, rank, ps[i].children[k2], depth), x))
  {
    var c1, c2 := ps[i].children[k1], ps[i].children[k2];
    if Visits(Walk(ps, rank, c1, depth), x) && Visits(Walk(ps, rank, c2, depth), x) {
      ShareMeansNested(ps, rank, c1, depth, c2, depth, x);
      assert c1 != c2;
      // The parent of the nested start is i itself, which lies outside
      // the walks of its own children.
      if Visits(Walk(ps, rank, c1, depth), c2) {
        var p, k := ParentVisited(ps, rank, c1, depth, c2);
      } else {
        var p, k := ParentVisited(ps, rank, c2, depth, c1);
      }
    }
  }

  /** Concatenated walks repeat nothing when each repeats nothing and they
      share no record. */
  lemma AppendNoRepeats(u: seq<Entry>, v: seq<Entry>)
    requires NoRepeats(u) && NoRepeats(v)
    requires forall a, b :: 0 <= a < |u| && 0 <= b < |v| ==> u[a].node != v[b].node
    ensures NoRepeats(u + v)
  {
  }

  lemma {:induction false} WalkNoRepeats(ps: seq<Process>, rank: map<nat, nat>, i: nat, depth: nat)
    requires Graded(ps, rank) && UniqueParents(ps) && i in rank
    ensures NoRepeats(Walk(ps, rank, i, depth))
    decreases rank[i], 1
  {
    var rest := WalkChildren(ps, rank, i, 0, depth + 1);
    WalkChildrenNoRepeats(ps, rank, i, 0, depth + 1);
    forall b | 0 <= b < |rest| ensures rest[b].node != i {
      assert rest[b] in rest;
    }
    AppendNoRepeats([Entry(i, depth)], rest);
  }

  lemma {:induction false} WalkChildrenNoRepeats(ps: seq<Process>, rank: map<nat, nat>, i: nat, k: nat, depth: nat)
    requires Graded(ps, rank) && UniqueParents(ps) && i in rank && k <= |ps[i].children|
    ensures NoRepeats(WalkChildren(ps, rank, i, k, depth))
    decreases rank[i], 0, |ps[i].children| - k
  {
    if k < |ps[i].children| {
      var c := ps[i].children[k];
      var u, v := Walk(ps, rank, c, depth), WalkChildren(ps, rank, i, k + 1, depth);
      WalkNoRepeats(ps, rank, c, depth);
      WalkChildrenNoRepeats(ps, rank, i, k + 1, depth);
      forall a, b | 0 <= a < |u| && 0 <= b < |v|
        ensures u[a].node != v[b].node
      {
        assert v[b] in v;
        var m := WalkChildrenSplit(ps, rank, i, k + 1, depth, v[b]);
        assert u[a] in u;
        assert Visits(u, u[a].node);
        if u[a].node == v[b].node {
          assert Visits(Walk(ps, rank, ps[i].children[m], depth), v[b].node);
          SiblingWalksDisjoint(ps, rank, i, k, m, depth, v[b].node);
        }
      }
      AppendNoRepeats(u, v);
    }
  }

  /** The records named by a sequence of entries without repeats are as
      many as the entries. */
  lemma {:induction false} NoRepeatsCount(w: seq<Entry>)
    requires NoRepeats(w)
    ensures |set e | e in w :: e.node| == |w|
  {
    if w != [] {
      var rest := w[1..];
      NoRepeatsCount(rest);
      NodesSplit(w);
    }
  }

  /** The records of a walk without repeats: its head's and, apart from it,
      those of its tail. */
  lemma NodesSplit(w: seq<Entry>)
    requires NoRepeats(w) && w != []
    ensures (set e | e in w :: e.node) == {w[0].node} + (set e | e in w[1..] :: e.node)
    ensures w[0].node !in (set e | e in w[1..] :: e.node)
  {
    var rest := w[1..];
    assert forall e :: e in w ==> e == w[0] || e in rest;
    forall e | e in rest ensures e.node != w[0].node {
      var b :| 0 <= b < |rest| && rest[b] == e;
      assert w[b + 1] == e;
    }
  }

  /** When every record has at most one parent, `print_pstree` prints every
      record reachable from the root exactly once, and so, when no name
      holds a line break, prints one line per reachable record. */
  lemma EachReachableOnce(ps: seq<Process>, rank: map<nat, nat>, init: nat, showPids: bool)
    requires Graded(ps, rank) && UniqueParents(ps) && init in rank
    ensures NoRepeats(Walk(ps, rank, init, 0))
    ensures (set e | e in Walk(ps, rank, init, 0) :: e.node) == Reachable(ps, init)
    ensures (forall i :: 0 <= i < |ps| ==> NoNewline(ps[i].name)) ==>
      Newlines(PrintPstree(ps, rank, init, showPids)) == |Reachable(ps, init)|
  {
    var w := Walk(ps, rank, init, 0);
    WalkNoRepeats(ps, rank, init, 0);
    NoRepeatsCount(w);
    var s := set e | e in w :: e.node;
    forall x | x in s ensures x in Reachable(ps, init) {
      var e :| e in w && e.node == x;
      WalkVisitsReachable(ps, rank, init, x);
      assert Entry(x, e.depth) == e;
    }
    forall x | x in Reachable(ps, init) ensures x in s {
      WalkVisitsReachable(ps, rank, init, x);
      var d :| Entry(x, d) in w;
    }
    if forall i :: 0 <= i < |ps| ==> NoNewline(ps[i].name) {
      PrintPstreeLineCount(ps, rank, init, showPids);
    }
  }
}
