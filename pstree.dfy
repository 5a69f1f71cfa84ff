/** The process list of pstree/pstree.c and the steps that link and order it:
    `set_children`, `sort`, `sort_by_name`, `sort_by_pid` and `find_init`. */
module Pstree {
  import opened CString

  /** One `struct Process`. The `ChildNode` list hanging off `children` is
      held as the positions, in the process list, of the records its `val`
      pointers point to, head first. */
  datatype Process = Process(name: string, pid: int, ppid: int, children: seq<nat>)

  datatype Option<T> = None | Some(value: T)

  /** Every child link points at a record of the list. */
  ghost predicate LinksInRange(ps: seq<Process>)
  {
    forall i, k :: 0 <= i < |ps| && 0 <= k < |ps[i].children| ==> ps[i].children[k] < |ps|
  }

  /** Same records in the same order, except perhaps for their child lists. */
  ghost predicate SameRecords(before: seq<Process>, after: seq<Process>)
  {
    && |after| == |before|
    && forall i :: 0 <= i < |before| ==>
         after[i].name == before[i].name && after[i].pid == before[i].pid && after[i].ppid == before[i].ppid
  }

  /** The records as `get_processes` hands them over: no child links yet. */
  ghost predicate Unlinked(ps: seq<Process>)
  {
    forall i :: 0 <= i < |ps| ==> ps[i].children == []
  }

  /** Every name is a C string: the `char` array up to its terminating NUL. */
  ghost predicate CNames(ps: seq<Process>)
  {
    forall i :: 0 <= i < |ps| ==> NulFree(ps[i].name)
  }

  /** No two records share a pid, as in a process table. */
  ghost predicate DistinctPids(ps: seq<Process>)
  {
    forall a, b :: 0 <= a < b < |ps| ==> ps[a].pid != ps[b].pid
  }

  /** The names survive every step that only touches child lists. */
  lemma SameRecordsCNames(before: seq<Process>, after: seq<Process>)
    requires SameRecords(before, after) && CNames(before)
    ensures CNames(after)
  {
    forall k | 0 <= k < |after| ensures NulFree(after[k].name) {
      assert after[k].name == before[k].name;
    }
  }

  // ---------------------------------------------------------------------
  // set_children

  /** The child list the inner loop of `set_children` has built for a record
      with this pid after scanning the first k records: every such j with
      `ppid == pid`, each prepended, so the latest match comes first. */
  function ScanChildren(ps: seq<Process>, pid: int, k: nat): (r: seq<nat>)
    requires k <= |ps|
    ensures forall x :: x in r ==> x < k
  {
    if k == 0 then []
    else if ps[k - 1].ppid == pid then [k - 1] + ScanChildren(ps, pid, k - 1)
    else ScanChildren(ps, pid, k - 1)
  }

  /** The list as `set_children` leaves it: record i gets the matches of its
      pid prepended to whatever child list it had. */
  function Linked(ps: seq<Process>): (r: seq<Process>)
    ensures SameRecords(ps, r)
  {
    seq(|ps|, i requires 0 <= i < |ps| => LinkedRecord(ps, i, |ps|))
  }

  /** The list once the outer loop has linked its first i records. */
  function LinkedUpTo(ps: seq<Process>, i: nat): (r: seq<Process>)
    requires i <= |ps|
    ensures |r| == |ps|
  {
    seq(|ps|, k requires 0 <= k < |ps| => if k < i then LinkedRecord(ps, k, |ps|) else ps[k])
  }

  /** Record i once the inner loop has scanned the first j records. */
  function LinkedRecord(ps: seq<Process>, i: nat, j: nat): (r: Process)
    requires i < |ps| && j <= |ps|
    ensures r.name == ps[i].name && r.pid == ps[i].pid && r.ppid == ps[i].ppid
  {
    ps[i].(children := ScanChildren(ps, ps[i].pid, j) + ps[i].children)
  }

  /** One more step of the inner scan prepends j when it matches. */
  lemma LinkedRecordStep(ps: seq<Process>, i: nat, j: nat)
    requires i < |ps| && j < |ps|
    ensures var r := LinkedRecord(ps, i, j);
      LinkedRecord(ps, i, j + 1) == if ps[j].ppid == ps[i].pid then r.(children := [j] + r.children) else r
  {
    assert ScanChildren(ps, ps[i].pid, j + 1) + ps[i].children
        == if ps[j].ppid == ps[i].pid then [j] + (ScanChildren(ps, ps[i].pid, j) + ps[i].children)
           else ScanChildren(ps, ps[i].pid, j) + ps[i].children;
  }

  /** Each record j of the scanned prefix occurs exactly once when its ppid
      is the pid, and not at all otherwise. The test does not exclude j
      being the record itself. */
  lemma {:induction false} ScanChildrenCount(ps: seq<Process>, pid: int, k: nat, j: nat)
    requires k <= |ps|
    ensures multiset(ScanChildren(ps, pid, k))[j] == if j < k && ps[j].ppid == pid then 1 else 0
  {
    if k > 0 {
      ScanChildrenCount(ps, pid, k - 1, j);
    }
  }

  /** Prepending makes the list run in reverse scan order. */
  lemma {:induction false} ScanChildrenDescending(ps: seq<Process>, pid: int, k: nat)
    requires k <= |ps|
    ensures forall p, q :: 0 <= p < q < |ScanChildren(ps, pid, k)| ==>
              ScanChildren(ps, pid, k)[p] > ScanChildren(ps, pid, k)[q]
  {
    if k > 0 {
      var r := ScanChildren(ps, pid, k - 1);
      ScanChildrenDescending(ps, pid, k - 1);
      assert forall q :: 0 <= q < |r| ==> r[q] in r;
    }
  }

  /** Starting from the empty child lists `get_processes` leaves, after
      `set_children` the child list of record i holds exactly one entry for
      each record j with `ppid_j == pid_i` (i itself included), and nothing
      else, in descending list order; the records themselves are untouched. */
  lemma LinkedExact(ps: seq<Process>, i: nat, j: nat)
    requires i < |ps| && ps[i].children == []
    ensures SameRecords(ps, Linked(ps))
    ensures multiset(Linked(ps)[i].children)[j] == if j < |ps| && ps[j].ppid == ps[i].pid then 1 else 0
    ensures j in Linked(ps)[i].children <==> j < |ps| && ps[j].ppid == ps[i].pid
    ensures forall p, q :: 0 <= p < q < |Linked(ps)[i].children| ==>
              Linked(ps)[i].children[p] > Linked(ps)[i].children[q]
  {
    assert Linked(ps)[i].children == ScanChildren(ps, ps[i].pid, |ps|);
    ScanChildrenCount(ps, ps[i].pid, |ps|, j);
    ScanChildrenDescending(ps, ps[i].pid, |ps|);
  }

  /** `set_children` keeps every link in range. */
  lemma LinkedInRange(ps: seq<Process>)
    requires LinksInRange(ps)
    ensures LinksInRange(Linked(ps)) && SameRecords(ps, Linked(ps))
  {
    forall i, k | 0 <= i < |ps| && 0 <= k < |Linked(ps)[i].children|
      ensures Linked(ps)[i].children[k] < |ps|
    {
      var r := ScanChildren(ps, ps[i].pid, |ps|);
      if k >= |r| {
        assert Linked(ps)[i].children[k] == ps[i].children[k - |r|];
      } else {
        assert Linked(ps)[i].children[k] == r[k] && r[k] in r;
      }
    }
  }

  /** A record whose ppid equals its own pid becomes its own child, because
      the scan does not skip j == i. */
  lemma SelfParentIsOwnChild(ps: seq<Process>, i: nat)
    requires i < |ps| && ps[i].pid == ps[i].ppid && ps[i].children == []
    ensures i in Linked(ps)[i].children
  {
    LinkedExact(ps, i, i);
  }

  /** With distinct pids and empty child lists to start from, every record
      stands at most once in all the child lists together: no two parents
      share it and no list holds it twice. */
  lemma LinkedUniqueParent(ps: seq<Process>, i1: nat, k1: nat, i2: nat, k2: nat)
    requires Unlinked(ps) && DistinctPids(ps)
    requires i1 < |ps| && k1 < |Linked(ps)[i1].children|
    requires i2 < |ps| && k2 < |Linked(ps)[i2].children|
    requires Linked(ps)[i1].children[k1] == Linked(ps)[i2].children[k2]
    ensures i1 == i2 && k1 == k2
  {
    var c := Linked(ps)[i1].children[k1];
    LinkedExact(ps, i1, c);
    LinkedExact(ps, i2, c);
    assert ps[i1].pid == ps[c].ppid == ps[i2].pid;
    if k1 < k2 || k2 < k1 {
      assert false;
    }
  }

  // ---------------------------------------------------------------------
  // sort_by_name, sort_by_pid

  /** The test on which the exchange sort swaps the entries for records x and
      y: `pid_x > pid_y` under `-n`, `strcmp(name_x, name_y) > 0` otherwise. */
  predicate Exchanges(ps: seq<Process>, numericSort: bool, x: nat, y: nat)
    requires x < |ps| && y < |ps|
    ensures Exchanges(ps, numericSort, x, y) ==>
      x != y && if numericSort then ps[x].pid != ps[y].pid else ps[x].name != ps[y].name
  {
    if numericSort then ps[x].pid > ps[y].pid else StrCmp(ps[x].name, ps[y].name) > 0
  }

  /** Record x may stand before record y in a sorted sibling list. */
  ghost predicate InOrder(ps: seq<Process>, numericSort: bool, x: nat, y: nat)
  {
    && x < |ps| && y < |ps|
    && if numericSort then ps[x].pid <= ps[y].pid else NameLe(ps[x].name, ps[y].name)
  }

  /** Sibling positions in ascending order of the key the flag selects. */
  ghost predicate Sorted(ps: seq<Process>, numericSort: bool, c: seq<nat>)
  {
    forall p, q :: 0 <= p < q < |c| ==> InOrder(ps, numericSort, c[p], c[q])
  }

  /** The exchange test and the order agree: no swap means the pair is in
      order, a swap puts it in order. */
  lemma ExchangesOrders(ps: seq<Process>, numericSort: bool, x: nat, y: nat)
    requires x < |ps| && y < |ps|
    ensures !Exchanges(ps, numericSort, x, y) <==> InOrder(ps, numericSort, x, y)
    ensures Exchanges(ps, numericSort, x, y) ==> InOrder(ps, numericSort, y, x)
  {
    StrCmpAntisymmetric(ps[x].name, ps[y].name);
  }

  lemma InOrderTransitive(ps: seq<Process>, numericSort: bool, x: nat, y: nat, z: nat)
    requires InOrder(ps, numericSort, x, y) && InOrder(ps, numericSort, y, z)
    ensures InOrder(ps, numericSort, x, z)
  {
    if !numericSort {
      StrCmpTransitive(ps[x].name, ps[y].name, ps[z].name);
    }
  }

  /** The state of the exchange sort once the outer cursor reaches i: every
      entry is in range, positions before i are sorted, and each of them is
      at most everything after it. */
  ghost predicate Settled(ps: seq<Process>, numericSort: bool, s: seq<nat>, i: nat)
  {
    && i <= |s|
    && InRange(ps, s)
    && (forall p, q {:trigger InOrder(ps, numericSort, s[p], s[q])} :: 0 <= p < q < i ==> InOrder(ps, numericSort, s[p], s[q]))
    && (forall p, q {:trigger InOrder(ps, numericSort, s[p], s[q])} :: 0 <= p < i <= q < |s| ==> InOrder(ps, numericSort, s[p], s[q]))
  }

  /** The state with outer cursor i and inner cursor j: settled up to i, and
      the entry at i is at most every entry strictly between i and j. */
  ghost predicate ExchangeState(ps: seq<Process>, numericSort: bool, s: seq<nat>, i: nat, j: nat)
  {
    && i < j <= |s|
    && Settled(ps, numericSort, s, i)
    && (forall q {:trigger InOrder(ps, numericSort, s[i], s[q])} :: i < q < j ==> InOrder(ps, numericSort, s[i], s[q]))
  }

  /** Exchanging the entries at i and j. */
  function Swap(s: seq<nat>, i: nat, j: nat): (r: seq<nat>)
    requires i < j < |s|
    ensures |r| == |s|
  {
    s[i := s[j]][j := s[i]]
  }

  /** A swap only permutes the list. */
  lemma SwapPermutes(s: seq<nat>, i: nat, j: nat)
    requires i < j < |s|
    ensures multiset(Swap(s, i, j)) == multiset(s)
  {
    var t := s[i := s[j]];
    assert multiset(t) == multiset(s) - multiset{s[i]} + multiset{s[j]};
    assert multiset(t[j := s[i]]) == multiset(t) - multiset{s[j]} + multiset{s[i]};
  }

  /** A swap keeps every entry a position in the list. */
  lemma SwapInRange(ps: seq<Process>, s: seq<nat>, i: nat, j: nat)
    requires i < j < |s| && InRange(ps, s)
    ensures InRange(ps, Swap(s, i, j))
  {
  }

  /** A swap behind the outer cursor keeps the sorted prefix and its bound. */
  lemma SwapKeepsPrefix(ps: seq<Process>, numericSort: bool, s: seq<nat>, i: nat, j: nat)
    requires ExchangeState(ps, numericSort, s, i, j) && j < |s|
    ensures Settled(ps, numericSort, Swap(s, i, j), i)
  {
    var s' := Swap(s, i, j);
    forall p, q | 0 <= p < i <= q < |s'|
      ensures InOrder(ps, numericSort, s'[p], s'[q])
    {
      if q == i {
        assert InOrder(ps, numericSort, s[p], s[j]);
      } else if q == j {
        assert InOrder(ps, numericSort, s[p], s[i]);
      } else {
        assert InOrder(ps, numericSort, s[p], s[q]);
      }
    }
  }

  /** When the test fires, the smaller entry moves to i and stays at most
      every entry the inner cursor has passed. */
  lemma SwapKeepsMinimum(ps: seq<Process>, numericSort: bool, s: seq<nat>, i: nat, j: nat)
    requires ExchangeState(ps, numericSort, s, i, j) && j < |s|
    requires InOrder(ps, numericSort, s[j], s[i])
    ensures forall q :: i < q < j + 1 ==> InOrder(ps, numericSort, Swap(s, i, j)[i], Swap(s, i, j)[q])
  {
    var s' := Swap(s, i, j);
    forall q | i < q < j + 1
      ensures InOrder(ps, numericSort, s'[i], s'[q])
    {
      if q < j {
        InOrderTransitive(ps, numericSort, s[j], s[i], s[q]);
      }
    }
  }

  /** One step of the inner loop, swapping or not, moves j on by one. */
  lemma ExchangeStep(ps: seq<Process>, numericSort: bool, s: seq<nat>, i: nat, j: nat)
    requires ExchangeState(ps, numericSort, s, i, j) && j < |s|
    ensures ExchangeState(ps, numericSort, ExchangeAt(ps, numericSort, s, i, j), i, j + 1)
  {
    ExchangesOrders(ps, numericSort, s[i], s[j]);
    if Exchanges(ps, numericSort, s[i], s[j]) {
      SwapKeepsPrefix(ps, numericSort, s, i, j);
      SwapKeepsMinimum(ps, numericSort, s, i, j);
    }
  }

  /** Leaving the inner loop: position i holds the least entry, so the
      sorted prefix grows by one. */
  lemma ExchangeAdvance(ps: seq<Process>, numericSort: bool, s: seq<nat>, i: nat)
    requires ExchangeState(ps, numericSort, s, i, |s|)
    ensures Settled(ps, numericSort, s, i + 1)
  {
  }

  /** Settled over the whole list: in range and sorted. */
  lemma SettledSorted(ps: seq<Process>, numericSort: bool, s: seq<nat>)
    requires Settled(ps, numericSort, s, |s|)
    ensures (forall k :: 0 <= k < |s| ==> s[k] < |ps|) && Sorted(ps, numericSort, s)
  {
  }

  /** Every entry of a child list is a position in the process list. */
  ghost predicate InRange(ps: seq<Process>, s: seq<nat>)
  {
    forall k :: 0 <= k < |s| ==> s[k] < |ps|
  }

  /** One step of the inner loop: swap the entries at i and j when the
      test says so. The positions are always in range when `sort` runs
      (`LinksInRange`); the guard only keeps the function total. */
  function ExchangeAt(ps: seq<Process>, numericSort: bool, s: seq<nat>, i: nat, j: nat): (r: seq<nat>)
    requires i < j < |s|
    ensures |r| == |s|
  {
    if s[i] < |ps| && s[j] < |ps| && Exchanges(ps, numericSort, s[i], s[j]) then Swap(s, i, j) else s
  }

  /** The list once the inner loop, with the outer cursor at i, has run up
      to (not including) the inner cursor j. */
  function PassUpTo(ps: seq<Process>, numericSort: bool, s: seq<nat>, i: nat, j: nat): (r: seq<nat>)
    requires i < j <= |s|
    ensures |r| == |s|
    decreases j
  {
    if j == i + 1 then s else ExchangeAt(ps, numericSort, PassUpTo(ps, numericSort, s, i, j - 1), i, j - 1)
  }

  /** The list once the outer loop has run its first i rounds. */
  function SortUpTo(ps: seq<Process>, numericSort: bool, s: seq<nat>, i: nat): (r: seq<nat>)
    requires i <= |s|
    ensures |r| == |s|
  {
    if i == 0 then s
    else
      var t := SortUpTo(ps, numericSort, s, i - 1);
      PassUpTo(ps, numericSort, t, i - 1, |t|)
  }

  /** The list `sort_by_name` (or, under `-n`, `sort_by_pid`) leaves. */
  function ExchangeSort(ps: seq<Process>, numericSort: bool, s: seq<nat>): (r: seq<nat>)
    requires InRange(ps, s)
    ensures |r| == |s|
  {
    SortUpTo(ps, numericSort, s, |s|)
  }

  /** One more inner step. */
  lemma PassUpToStep(ps: seq<Process>, numericSort: bool, s: seq<nat>, i: nat, j: nat)
    requires i < j < |s|
    ensures PassUpTo(ps, numericSort, s, i, j + 1) == ExchangeAt(ps, numericSort, PassUpTo(ps, numericSort, s, i, j), i, j)
  {
  }

  /** One more outer round. */
  lemma SortUpToStep(ps: seq<Process>, numericSort: bool, s: seq<nat>, i: nat)
    requires i < |s|
    ensures SortUpTo(ps, numericSort, s, i + 1) == PassUpTo(ps, numericSort, SortUpTo(ps, numericSort, s, i), i, |s|)
  {
  }

  /** One step of the inner loop only exchanges entries. */
  lemma ExchangeAtPermutes(ps: seq<Process>, numericSort: bool, s: seq<nat>, i: nat, j: nat)
    requires i < j < |s|
    ensures multiset(ExchangeAt(ps, numericSort, s, i, j)) == multiset(s)
  {
    if s[i] < |ps| && s[j] < |ps| && Exchanges(ps, numericSort, s[i], s[j]) {
      SwapPermutes(s, i, j);
    }
  }

  /** The inner loop only exchanges entries. */
  lemma {:induction false} PassPermutes(ps: seq<Process>, numericSort: bool, s: seq<nat>, i: nat, j: nat)
    requires i < j <= |s|
    ensures multiset(PassUpTo(ps, numericSort, s, i, j)) == multiset(s)
    decreases j
  {
    if j > i + 1 {
      PassPermutes(ps, numericSort, s, i, j - 1);
      ExchangeAtPermutes(ps, numericSort, PassUpTo(ps, numericSort, s, i, j - 1), i, j - 1);
    }
  }

  /** So does the outer loop. */
  lemma {:induction false} SortPermutes(ps: seq<Process>, numericSort: bool, s: seq<nat>, i: nat)
    requires i <= |s|
    ensures multiset(SortUpTo(ps, numericSort, s, i)) == multiset(s)
  {
    if i > 0 {
      SortPermutes(ps, numericSort, s, i - 1);
      PassPermutes(ps, numericSort, SortUpTo(ps, numericSort, s, i - 1), i - 1, |s|);
    }
  }

  /** One inner step of the pass keeps the exchange invariant. */
  lemma PassStep(ps: seq<Process>, numericSort: bool, s: seq<nat>, i: nat, j: nat)
    requires i < j < |s|
    requires ExchangeState(ps, numericSort, PassUpTo(ps, numericSort, s, i, j), i, j)
    ensures ExchangeState(ps, numericSort, PassUpTo(ps, numericSort, s, i, j + 1), i, j + 1)
  {
    PassUpToStep(ps, numericSort, s, i, j);
    ExchangeStep(ps, numericSort, PassUpTo(ps, numericSort, s, i, j), i, j);
  }

  /** The inner loop keeps the exchange invariant. */
  lemma {:induction false} PassSettles(ps: seq<Process>, numericSort: bool, s: seq<nat>, i: nat, j: nat)
    requires Settled(ps, numericSort, s, i) && i < j <= |s|
    ensures ExchangeState(ps, numericSort, PassUpTo(ps, numericSort, s, i, j), i, j)
    decreases j
  {
    if j > i + 1 {
      PassSettles(ps, numericSort, s, i, j - 1);
      PassStep(ps, numericSort, s, i, j - 1);
    }
  }

  /** One round of the outer loop settles position i. */
  lemma PassAdvances(ps: seq<Process>, numericSort: bool, t: seq<nat>, i: nat)
    requires Settled(ps, numericSort, t, i) && i < |t|
    ensures Settled(ps, numericSort, PassUpTo(ps, numericSort, t, i, |t|), i + 1)
  {
    PassSettles(ps, numericSort, t, i, |t|);
    ExchangeAdvance(ps, numericSort, PassUpTo(ps, numericSort, t, i, |t|), i);
  }

  /** The outer loop settles one more position per round. */
  lemma {:induction false} SortSettles(ps: seq<Process>, numericSort: bool, s: seq<nat>, i: nat)
    requires InRange(ps, s) && i <= |s|
    ensures Settled(ps, numericSort, SortUpTo(ps, numericSort, s, i), i)
  {
    if i > 0 {
      SortSettles(ps, numericSort, s, i - 1);
      PassAdvances(ps, numericSort, SortUpTo(ps, numericSort, s, i - 1), i - 1);
    }
  }

  /** The exchange sort permutes the list into the order the flag selects. */
  lemma ExchangeSortSorts(ps: seq<Process>, numericSort: bool, s: seq<nat>)
    requires InRange(ps, s)
    ensures multiset(ExchangeSort(ps, numericSort, s)) == multiset(s)
    ensures Sorted(ps, numericSort, ExchangeSort(ps, numericSort, s))
    ensures InRange(ps, ExchangeSort(ps, numericSort, s))
  {
    SortPermutes(ps, numericSort, s, |s|);
    SortSettles(ps, numericSort, s, |s|);
    SettledSorted(ps, numericSort, ExchangeSort(ps, numericSort, s));
  }

  /** The exchange sort only looks at names and pids, so it gives the same
      list on records that differ only in their child lists. */
  lemma ExchangesSameRecords(before: seq<Process>, now: seq<Process>, numericSort: bool, x: nat, y: nat)
    requires SameRecords(before, now) && x < |before| && y < |before|
    ensures Exchanges(now, numericSort, x, y) == Exchanges(before, numericSort, x, y)
  {
    assert now[x].name == before[x].name && now[y].name == before[y].name;
  }

  lemma {:induction false} PassSameRecords(before: seq<Process>, now: seq<Process>, numericSort: bool, s: seq<nat>, i: nat, j: nat)
    requires SameRecords(before, now) && i < j <= |s|
    ensures PassUpTo(now, numericSort, s, i, j) == PassUpTo(before, numericSort, s, i, j)
    decreases j
  {
    if j > i + 1 {
      PassSameRecords(before, now, numericSort, s, i, j - 1);
      var t := PassUpTo(before, numericSort, s, i, j - 1);
      if t[i] < |before| && t[j - 1] < |before| {
        ExchangesSameRecords(before, now, numericSort, t[i], t[j - 1]);
      }
    }
  }

  lemma {:induction false} SortSameRecords(before: seq<Process>, now: seq<Process>, numericSort: bool, s: seq<nat>, i: nat)
    requires SameRecords(before, now) && i <= |s|
    ensures SortUpTo(now, numericSort, s, i) == SortUpTo(before, numericSort, s, i)
  {
    if i > 0 {
      SortSameRecords(before, now, numericSort, s, i - 1);
      var t := SortUpTo(before, numericSort, s, i - 1);
      PassSameRecords(before, now, numericSort, t, i - 1, |t|);
    }
  }

  /** With a comparison that never fires, the exchange sort leaves the list
      as it is: equal keys keep their order. */
  lemma {:induction false} NoExchangeSortUpTo(ps: seq<Process>, numericSort: bool, s: seq<nat>, i: nat)
    requires InRange(ps, s) && i <= |s|
    requires forall p, q :: 0 <= p < q < |s| ==> !Exchanges(ps, numericSort, s[p], s[q])
    ensures SortUpTo(ps, numericSort, s, i) == s
  {
    if i > 0 {
      NoExchangeSortUpTo(ps, numericSort, s, i - 1);
      NoExchangePass(ps, numericSort, s, i - 1, |s|);
    }
  }

  lemma {:induction false} NoExchangePass(ps: seq<Process>, numericSort: bool, s: seq<nat>, i: nat, j: nat)
    requires InRange(ps, s) && i < j <= |s|
    requires forall p, q :: 0 <= p < q < |s| ==> !Exchanges(ps, numericSort, s[p], s[q])
    ensures PassUpTo(ps, numericSort, s, i, j) == s
    decreases j
  {
    if j > i + 1 {
      NoExchangePass(ps, numericSort, s, i, j - 1);
    }
  }

  /** Two siblings with equal names: `strcmp` gives 0, so `sort_by_name`
      leaves them in the order `set_children` made, later record first. */
  lemma EqualNamesKeepOrder(ps: seq<Process>, x: nat, y: nat)
    requires x < |ps| && y < |ps| && ps[x].name == ps[y].name
    ensures ExchangeSort(ps, false, [x, y]) == [x, y]
  {
    StrCmpAntisymmetric(ps[x].name, ps[y].name);
    NoExchangeSortUpTo(ps, false, [x, y], 2);
  }

  /** `sort_by_name`: the exchange sort over one child list. The cursor i
      walks the list; the inner cursor j swaps in every later entry whose
      name `strcmp` puts strictly before the one at i, so two entries with
      equal names are never swapped with each other. Only the `val`
      pointers move. The array ends as `ExchangeSort` of its old contents,
      which `ExchangeSortSorts` proves a sorted permutation. */
  method SortByName(ps: seq<Process>, c: array<nat>)
    requires InRange(ps, c[..])
    modifies c
    ensures c[..] == ExchangeSort(ps, false, old(c[..]))
  {
    ghost var s0 := c[..];
    var i := 0;
    while i < c.Length
      invariant i <= c.Length && InRange(ps, c[..]) && c[..] == SortUpTo(ps, false, s0, i)
    {
      ghost var t := c[..];
      var j := i + 1;
      while j < c.Length
        invariant i < j <= c.Length && InRange(ps, c[..]) && c[..] == PassUpTo(ps, false, t, i, j)
      {
        ghost var s := c[..];
        assert c[i] < |ps| && c[j] < |ps|;
        if StrCmp(ps[c[i]].name, ps[c[j]].name) > 0 {
          c[i], c[j] := c[j], c[i];
          assert c[..] == Swap(s, i, j);
          SwapInRange(ps, s, i, j);
        }
        j := j + 1;
      }
      i := i + 1;
    }
  }

  /** `sort_by_pid`: the same exchange sort keyed on the numeric pid, which
      swaps only on a strictly greater pid; it ends as `ExchangeSort` of its
      old contents with the pid key. */
  method SortByPid(ps: seq<Process>, c: array<nat>)
    requires InRange(ps, c[..])
    modifies c
    ensures c[..] == ExchangeSort(ps, true, old(c[..]))
  {
    ghost var s0 := c[..];
    var i := 0;
    while i < c.Length
      invariant i <= c.Length && InRange(ps, c[..]) && c[..] == SortUpTo(ps, true, s0, i)
    {
      ghost var t := c[..];
      var j := i + 1;
      while j < c.Length
        invariant i < j <= c.Length && InRange(ps, c[..]) && c[..] == PassUpTo(ps, true, t, i, j)
      {
        ghost var s := c[..];
        assert c[i] < |ps| && c[j] < |ps|;
        if ps[c[i]].pid > ps[c[j]].pid {
          c[i], c[j] := c[j], c[i];
          assert c[..] == Swap(s, i, j);
          SwapInRange(ps, s, i, j);
        }
        j := j + 1;
      }
      i := i + 1;
    }
  }

  /** What `sort` promises of one record's child list: a permutation of the
      list it had, in the order the flag selects. */
  ghost predicate SortedSiblings(ps: seq<Process>, before: seq<nat>, after: seq<nat>, numericSort: bool)
  {
    && multiset(after) == multiset(before)
    && Sorted(ps, numericSort, after)
  }

  /** `after` is `before` with each record's own child list sorted on its own. */
  ghost predicate SortedForest(before: seq<Process>, after: seq<Process>, numericSort: bool)
  {
    && SameRecords(before, after)
    && forall i :: 0 <= i < |before| ==> SortedSiblings(before, before[i].children, after[i].children, numericSort)
  }

  /** The list as `sort` leaves it: every record's child list run through
      the exchange sort on its own. */
  function SortChildren(ps: seq<Process>, numericSort: bool): (r: seq<Process>)
    requires LinksInRange(ps)
    ensures SameRecords(ps, r)
  {
    seq(|ps|, i requires 0 <= i < |ps| => ps[i].(children := ExchangeSort(ps, numericSort, ps[i].children)))
  }

  /** Record i as `sort` leaves it. */
  lemma SortChildrenAt(ps: seq<Process>, numericSort: bool, i: nat)
    requires LinksInRange(ps) && i < |ps|
    ensures InRange(ps, ps[i].children)
    ensures SortChildren(ps, numericSort)[i] == ps[i].(children := ExchangeSort(ps, numericSort, ps[i].children))
  {
  }

  /** `sort` sorts each child list into a permutation of itself and leaves
      every name, pid and parent pid alone. */
  lemma SortChildrenSorted(ps: seq<Process>, numericSort: bool)
    requires LinksInRange(ps)
    ensures SortedForest(ps, SortChildren(ps, numericSort), numericSort)
    ensures LinksInRange(SortChildren(ps, numericSort))
  {
    var r := SortChildren(ps, numericSort);
    forall i | 0 <= i < |ps|
      ensures SortedSiblings(ps, ps[i].children, r[i].children, numericSort)
      ensures InRange(ps, r[i].children)
    {
      ExchangeSortSorts(ps, numericSort, ps[i].children);
    }
  }

  // ---------------------------------------------------------------------
  // The process list

  /** The `List` all steps work on: records in the order `get_processes`
      found them, each with its child list. */
  class ProcessList {
    var procs: seq<Process>

    ghost predicate Valid()
      reads this
    {
      LinksInRange(procs) && CNames(procs)
    }

    /** The list as `get_processes` hands it over: every `children` NULL,
        every name a C string. */
    constructor (records: seq<Process>)
      requires Unlinked(records) && CNames(records)
      ensures Valid() && procs == records
    {
      procs := records;
    }

    /** `find_init`: the first record, in list order, whose ppid is 0, or
        None when there is none. */
    method FindInit() returns (r: Option<nat>)
      ensures r.None? <==> forall i :: 0 <= i < |procs| ==> procs[i].ppid != 0
      ensures r.Some? ==> r.value < |procs| && procs[r.value].ppid == 0
      ensures r.Some? ==> forall i :: 0 <= i < r.value ==> procs[i].ppid != 0
    {
      var cur := 0;
      while cur < |procs|
        invariant 0 <= cur <= |procs|
        invariant forall i :: 0 <= i < cur ==> procs[i].ppid != 0
      {
        if procs[cur].ppid == 0 {
          return Some(cur);
        }
        cur := cur + 1;
      }
      return None;
    }

    /** `set_children`: for every record i, scan every record j and prepend
        j to i's child list when `pid_i == ppid_j`. */
    method SetChildren()
      requires Valid()
      modifies this
      ensures Valid()
      ensures procs == Linked(old(procs))
    {
      ghost var ps := procs;
      var n := |procs|;
      var i := 0;
      while i < n
        invariant 0 <= i <= n && procs == LinkedUpTo(ps, i)
      {
        var j := 0;
        assert LinkedRecord(ps, i, 0) == ps[i];
        while j < n
          invariant 0 <= j <= n && procs == LinkedUpTo(ps, i)[i := LinkedRecord(ps, i, j)]
        {
          LinkedRecordStep(ps, i, j);
          if procs[i].pid == procs[j].ppid {
            procs := procs[i := procs[i].(children := [j] + procs[i].children)];
          }
          j := j + 1;
        }
        assert procs == LinkedUpTo(ps, i + 1);
        i := i + 1;
      }
      assert procs == Linked(ps);
      LinkedInRange(ps);
      SameRecordsCNames(ps, procs);
    }

    /** `sort`: every record's non-empty child list is sorted on its own,
        by pid when `numericSort` is set and by name otherwise. */
    method Sort(numericSort: bool)
      requires Valid()
      modifies this
      ensures Valid()
      ensures procs == SortChildren(old(procs), numericSort)
      ensures SortedForest(old(procs), procs, numericSort)
    {
      ghost var ps := procs;
      var n := |procs|;
      var cur := 0;
      while cur < n
        invariant 0 <= cur <= n && SameRecords(ps, procs)
        invariant forall i :: 0 <= i < cur ==> procs[i] == SortChildren(ps, numericSort)[i]
        invariant forall i :: cur <= i < n ==> procs[i] == ps[i]
      {
        var cs := procs[cur].children;
        SortChildrenAt(ps, numericSort, cur);
        if |cs| > 0 {
          var a := new nat[|cs|](k requires 0 <= k < |cs| => cs[k]);
          assert a[..] == cs;
          assert InRange(procs, cs);
          if numericSort {
            SortByPid(procs, a);
          } else {
            SortByName(procs, a);
          }
          SortSameRecords(ps, procs, numericSort, cs, |cs|);
          procs := procs[cur := procs[cur].(children := a[..])];
        }
        cur := cur + 1;
      }
      assert procs == SortChildren(ps, numericSort);
      SortChildrenSorted(ps, numericSort);
      SameRecordsCNames(ps, procs);
    }
  }
}
