/** The steps `main` runs on the process list (pstree/pstree.c:236-243):
    find the root, link, sort, print; and what that run guarantees. */
module Pipeline {
  import opened Pstree
  import opened Render
  import opened Reach

  /** Record i is the one `find_init` returns. */
  ghost predicate IsFirstRoot(records: seq<Process>, i: nat)
  {
    i < |records| && records[i].ppid == 0 && forall k :: 0 <= k < i ==> records[k].ppid != 0
  }

  /** The parent relation on the records (j is a child of i when
      `ppid_j == pid_i`) has no cycle among the records `rank` covers, and
      `rank` covers every child of a covered record. */
  ghost predicate ParentRanked(records: seq<Process>, rank: map<nat, nat>)
  {
    forall i :: i in rank ==>
      && i < |records|
      && forall j :: 0 <= j < |records| && records[j].ppid == records[i].pid ==> j in rank && rank[j] < rank[i]
  }

  /** An acyclic parent relation stays acyclic once `set_children` links it. */
  lemma LinkedGraded(records: seq<Process>, rank: map<nat, nat>)
    requires Unlinked(records) && ParentRanked(records, rank)
    ensures Graded(Linked(records), rank)
  {
    var ps := Linked(records);
    forall i, k | i in rank && 0 <= k < |ps[i].children|
      ensures ps[i].children[k] in rank && rank[ps[i].children[k]] < rank[i]
    {
      var c := ps[i].children[k];
      assert c in ps[i].children;
      LinkedExact(records, i, c);
    }
  }

  /** Sorting only permutes child lists, so it keeps the grading. */
  lemma SortedGraded(before: seq<Process>, after: seq<Process>, numericSort: bool, rank: map<nat, nat>)
    requires SortedForest(before, after, numericSort) && Graded(before, rank)
    ensures Graded(after, rank)
  {
    forall i, k | i in rank && 0 <= k < |after[i].children|
      ensures after[i].children[k] in rank && rank[after[i].children[k]] < rank[i]
    {
      var c := after[i].children[k];
      assert c in multiset(after[i].children);
      assert c in before[i].children;
    }
  }

  /** Sorting changes no child set, so it reaches the same records. */
  lemma SortedSameReachable(before: seq<Process>, after: seq<Process>, numericSort: bool, i: nat)
    requires SortedForest(before, after, numericSort)
    ensures Reachable(after, i) == Reachable(before, i)
  {
    forall path | IsPath(after, path) ensures IsPath(before, path) {
      forall k | 0 <= k < |path| - 1 ensures path[k + 1] in before[path[k]].children {
        assert path[k + 1] in multiset(after[path[k]].children);
      }
    }
    forall path | IsPath(before, path) ensures IsPath(after, path) {
      forall k | 0 <= k < |path| - 1 ensures path[k + 1] in after[path[k]].children {
        assert path[k + 1] in multiset(before[path[k]].children);
      }
    }
    assert forall x :: Reaches(after, i, x) <==> Reaches(before, i, x);
  }

  /** A value that stands at two places occurs at least twice. */
  lemma TwoPlacesCount(s: seq<nat>, a: nat, b: nat)
    requires a < b < |s|
    ensures s[a] == s[b] ==> multiset(s)[s[a]] >= 2
  {
    assert s == s[..a] + [s[a]] + s[a + 1..b] + [s[b]] + s[b + 1..];
  }

  /** A sequence repeats nothing when each value occurs at most once. */
  lemma NoDupCount(s: seq<nat>, a: nat, b: nat)
    requires forall x :: multiset(s)[x] <= 1
    requires a < |s| && b < |s| && s[a] == s[b]
    ensures a == b
  {
    if a < b {
      TwoPlacesCount(s, a, b);
    } else if b < a {
      TwoPlacesCount(s, b, a);
    }
  }

  /** Distinct pids give every record at most one place in the linked
      child lists, and sorting keeps it so. */
  lemma SortedUniqueParents(records: seq<Process>, forest: seq<Process>, numericSort: bool)
    requires Unlinked(records) && DistinctPids(records)
    requires SortedForest(Linked(records), forest, numericSort)
    ensures UniqueParents(forest)
  {
    var ps := Linked(records);
    forall i1, k1, i2, k2 |
      && 0 <= i1 < |forest| && 0 <= k1 < |forest[i1].children|
      && 0 <= i2 < |forest| && 0 <= k2 < |forest[i2].children|
      && forest[i1].children[k1] == forest[i2].children[k2]
      ensures i1 == i2 && k1 == k2
    {
      var x := forest[i1].children[k1];
      assert x in multiset(forest[i1].children) && x in multiset(forest[i2].children);
      assert x in ps[i1].children && x in ps[i2].children;
      var m1 :| 0 <= m1 < |ps[i1].children| && ps[i1].children[m1] == x;
      var m2 :| 0 <= m2 < |ps[i2].children| && ps[i2].children[m2] == x;
      LinkedUniqueParent(records, i1, m1, i2, m2);
      LinkedExact(records, i1, x);
      assert multiset(forest[i1].children) == multiset(ps[i1].children);
      forall y ensures multiset(forest[i1].children)[y] <= 1 {
        LinkedExact(records, i1, y);
      }
      NoDupCount(forest[i1].children, k1, k2);
    }
  }

  /** What printing a sorted forest of linked records yields: the forest is
      graded; with distinct pids every record reachable from the root is
      printed exactly once; and when no name holds a line break as well,
      the text has one line per reachable record. */
  lemma SortedForestPrints(records: seq<Process>, forest: seq<Process>, numericSort: bool,
                           rank: map<nat, nat>, root: nat, showPids: bool)
    requires Unlinked(records) && ParentRanked(records, rank) && root in rank
    requires SortedForest(Linked(records), forest, numericSort)
    ensures Graded(forest, rank)
    ensures DistinctPids(records) ==>
      && NoRepeats(Walk(forest, rank, root, 0))
      && (set e | e in Walk(forest, rank, root, 0) :: e.node) == Reachable(Linked(records), root)
    ensures DistinctPids(records) && (forall i :: 0 <= i < |records| ==> NoNewline(records[i].name)) ==>
      Newlines(PrintPstree(forest, rank, root, showPids)) == |Reachable(Linked(records), root)|
  {
    LinkedGraded(records, rank);
    SortedGraded(Linked(records), forest, numericSort, rank);
    if DistinctPids(records) {
      SortedUniqueParents(records, forest, numericSort);
      SortedSameReachable(Linked(records), forest, numericSort, root);
      EachReachableOnce(forest, rank, root, showPids);
      assert forall i :: 0 <= i < |records| ==> forest[i].name == records[i].name;
    }
  }

  /** The run of `main` from `find_init` on: None is the "no find init"
      error, in which case nothing is linked, sorted or printed; otherwise
      the text `print_pstree` writes for the first root once the records
      are linked and every child list is run through the exchange sort. */
  method PrintProcessTree(records: seq<Process>, showPids: bool, numericSort: bool, ghost rank: map<nat, nat>)
    returns (out: Option<string>)
    requires Unlinked(records) && CNames(records) && ParentRanked(records, rank)
    requires forall i :: IsFirstRoot(records, i) ==> i in rank
    ensures out.None? <==> forall i :: 0 <= i < |records| ==> records[i].ppid != 0
    ensures out.Some? ==>
      && LinksInRange(Linked(records))
      && exists init ::
        && IsFirstRoot(records, init) && init in rank
        && Graded(SortChildren(Linked(records), numericSort), rank)
        && out.value == PrintPstree(SortChildren(Linked(records), numericSort), rank, init, showPids)
    ensures out.Some? && DistinctPids(records) && (forall i :: 0 <= i < |records| ==> NoNewline(records[i].name)) ==>
      exists init :: IsFirstRoot(records, init) && Newlines(out.value) == |Reachable(Linked(records), init)|
  {
    var l := new ProcessList(records);
    var init := l.FindInit();
    if init.None? {
      return None;
    }
    var root := init.value;
    assert IsFirstRoot(records, root);
    l.SetChildren();
    l.Sort(numericSort);
    ghost var forest := l.procs;
    SortedForestPrints(records, forest, numericSort, rank, root, showPids);
    out := Some(PrintPstree(l.procs, rank, root, showPids));
  }

  // ---------------------------------------------------------------------
  // Edge cases of the records

  /** A record whose ppid matches no pid is in no child list, so it is
      never printed unless it is the root itself. */
  lemma DanglingNotReached(records: seq<Process>, x: nat, init: nat)
    requires Unlinked(records) && x < |records| && x != init
    requires forall j :: 0 <= j < |records| ==> records[j].pid != records[x].ppid
    ensures x !in Reachable(Linked(records), init)
  {
    var ps := Linked(records);
    if x in Reachable(ps, init) {
      var path :| IsPath(ps, path) && path[0] == init && path[|path| - 1] == x;
      var n := |path|;
      assert n > 1;
      var p := path[n - 2];
      assert x in ps[p].children;
      LinkedExact(records, p, x);
      assert false;
    }
  }

  /** With distinct pids, the only parent of a self-parented record is the
      record itself, so the printer reaches it only from itself: only when it
      is the root, with pid and parent pid both 0. */
  lemma SelfParentOnlyAsRoot(records: seq<Process>, x: nat, init: nat)
    requires Unlinked(records) && DistinctPids(records)
    requires x < |records| && records[x].pid == records[x].ppid
    ensures x in Reachable(Linked(records), init) ==> init == x
    ensures x in Reachable(Linked(records), init) && IsFirstRoot(records, init) ==> records[x].pid == 0
  {
    var ps := Linked(records);
    if x in Reachable(ps, init) {
      var path :| IsPath(ps, path) && path[0] == init && path[|path| - 1] == x;
      PathIntoSelfParent(records, x, path);
    }
  }

  /** Every child path into a self-parented record starts at that record. */
  lemma {:induction false} PathIntoSelfParent(records: seq<Process>, x: nat, path: seq<nat>)
    requires Unlinked(records) && DistinctPids(records)
    requires x < |records| && records[x].pid == records[x].ppid
    requires IsPath(Linked(records), path) && path[|path| - 1] == x
    ensures path[0] == x
    decreases |path|
  {
    var ps := Linked(records);
    var n := |path|;
    if n > 1 {
      var p := path[n - 2];
      assert x in ps[p].children;
      LinkedExact(records, p, x);
      assert records[p].pid == records[x].pid;
      assert p == x;
      var prefix := path[..n - 1];
      assert IsPath(ps, prefix);
      PathIntoSelfParent(records, x, prefix);
    }
  }

  /** A record that is its own parent becomes its own child, so no grading
      covers it: the C recursion on it never ends. */
  lemma SelfParentNotGraded(records: seq<Process>, i: nat, rank: map<nat, nat>)
    requires Unlinked(records) && i < |records| && records[i].pid == records[i].ppid
    ensures !(Graded(Linked(records), rank) && i in rank)
  {
    var ps := Linked(records);
    SelfParentIsOwnChild(records, i);
  }
}
