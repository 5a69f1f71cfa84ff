/** Small process tables and the exact text the program prints for them. */
module Scenarios {
  import opened Pstree
  import opened Render
  import opened Pipeline
  import opened CString
  import opened Printf

  /** init(1) -> bash(10) -> vim(11). */
  function Chain(): seq<Process>
  {
    [Process("init", 1, 0, []), Process("bash", 10, 1, []), Process("vim", 11, 10, [])]
  }

  /** The chain once `set_children` has linked it. */
  function ChainForest(): seq<Process>
  {
    [Process("init", 1, 0, [1]), Process("bash", 10, 1, [2]), Process("vim", 11, 10, [])]
  }

  function ChainRank(): map<nat, nat>
  {
    map[0 := 2, 1 := 1, 2 := 0]
  }

  /** init(1) with children zsh(20) and awk(21), listed in that order. */
  function Siblings(): seq<Process>
  {
    [Process("init", 1, 0, []), Process("zsh", 20, 1, []), Process("awk", 21, 1, [])]
  }

  /** The sibling table with init's children in the order given. */
  function SiblingsForest(kids: seq<nat>): seq<Process>
  {
    [Process("init", 1, 0, kids), Process("zsh", 20, 1, []), Process("awk", 21, 1, [])]
  }

  function SiblingsRank(): map<nat, nat>
  {
    map[0 := 1, 1 := 0, 2 := 0]
  }

  lemma SingletonPermutation(s: seq<nat>, x: nat)
    requires multiset(s) == multiset([x])
    ensures s == [x]
  {
    assert |s| == |multiset(s)| == 1;
    assert s[0] in multiset(s);
  }

  lemma PairPermutation(s: seq<nat>, x: nat, y: nat)
    requires multiset(s) == multiset([x, y]) && x != y
    ensures s == [x, y] || s == [y, x]
  {
    assert |s| == |multiset(s)| == 2;
    assert s[0] in multiset(s) && s[1] in multiset(s);
    assert s == [s[0], s[1]];
  }

  /** A record without children prints as its own line. */
  lemma LeafPrints(ps: seq<Process>, rank: map<nat, nat>, i: nat, showPids: bool, depth: nat)
    requires Graded(ps, rank) && i in rank && ps[i].children == []
    ensures PrintHelper(ps, rank, i, showPids, depth) == Line(ps[i], showPids, depth)
  {
    assert PrintChildren(ps, rank, i, 0, showPids, depth + 1) == "";
  }

  /** The child loop over a list of one. */
  lemma OneChildLoop(ps: seq<Process>, rank: map<nat, nat>, i: nat, showPids: bool, depth: nat)
    requires Graded(ps, rank) && i in rank && |ps[i].children| == 1
    ensures PrintChildren(ps, rank, i, 0, showPids, depth) == PrintHelper(ps, rank, ps[i].children[0], showPids, depth)
  {
    assert PrintChildren(ps, rank, i, 1, showPids, depth) == "";
  }

  /** The child loop over a list of two. */
  lemma TwoChildLoop(ps: seq<Process>, rank: map<nat, nat>, i: nat, showPids: bool, depth: nat)
    requires Graded(ps, rank) && i in rank && |ps[i].children| == 2
    ensures PrintChildren(ps, rank, i, 0, showPids, depth)
         == PrintHelper(ps, rank, ps[i].children[0], showPids, depth) + PrintHelper(ps, rank, ps[i].children[1], showPids, depth)
  {
    assert PrintChildren(ps, rank, i, 2, showPids, depth) == "";
    assert PrintChildren(ps, rank, i, 1, showPids, depth) == PrintHelper(ps, rank, ps[i].children[1], showPids, depth);
  }

  /** What a sorted forest says about one record. */
  lemma SortedAt(before: seq<Process>, after: seq<Process>, numericSort: bool, i: nat)
    requires SortedForest(before, after, numericSort) && i < |before|
    ensures SortedSiblings(before, before[i].children, after[i].children, numericSort)
    ensures after[i] == before[i].(children := after[i].children)
  {
  }

  /** Three records determine a table of three. */
  lemma ThreeRecords(s: seq<Process>, t: seq<Process>)
    requires |s| == |t| == 3 && s[0] == t[0] && s[1] == t[1] && s[2] == t[2]
    ensures s == t
  {
  }

  /** Linking the chain gives each record the one child below it. */
  lemma ChainLinked()
    ensures Linked(Chain()) == ChainForest()
  {
    var c := Chain();
    var ps := Linked(c);
    assert ScanChildren(c, 1, 1) == [] && ScanChildren(c, 1, 2) == [1] && ScanChildren(c, 1, 3) == [1];
    assert ScanChildren(c, 10, 1) == [] && ScanChildren(c, 10, 2) == [] && ScanChildren(c, 10, 3) == [2];
    assert ScanChildren(c, 11, 1) == [] && ScanChildren(c, 11, 2) == [] && ScanChildren(c, 11, 3) == [];
    assert ps[0] == ChainForest()[0] && ps[1] == ChainForest()[1] && ps[2] == ChainForest()[2];
  }

  /** Sorting a list of one or none changes nothing, whatever the flag. */
  lemma ChainSorted(forest: seq<Process>, numericSort: bool)
    requires SortedForest(Linked(Chain()), forest, numericSort)
    ensures forest == ChainForest()
  {
    ChainLinked();
    var ps := Linked(Chain());
    SortedAt(ps, forest, numericSort, 0);
    SortedAt(ps, forest, numericSort, 1);
    SortedAt(ps, forest, numericSort, 2);
    SingletonPermutation(forest[0].children, 1);
    SingletonPermutation(forest[1].children, 2);
    assert forest[2].children == [];
    ThreeRecords(forest, ps);
  }

  lemma ChainGraded()
    ensures Graded(ChainForest(), ChainRank())
  {
  }

  /** The printer's recursion on the chain: one line per record, each one
      level deeper than its parent. */
  lemma ChainLines(ps: seq<Process>, rank: map<nat, nat>, showPids: bool)
    requires Graded(ps, rank) && 0 in rank && |ps| == 3
    requires ps[0].children == [1] && ps[1].children == [2] && ps[2].children == []
    ensures PrintPstree(ps, rank, 0, showPids) == Line(ps[0], showPids, 0) + (Line(ps[1], showPids, 1) + Line(ps[2], showPids, 2))
  {
    assert ps[0].children[0] == 1 && ps[1].children[0] == 2;
    LeafPrints(ps, rank, 2, showPids, 2);
    OneChildLoop(ps, rank, 1, showPids, 2);
    OneChildLoop(ps, rank, 0, showPids, 1);
    TopLine(ps[0], showPids);
  }

  lemma IndentValues()
    ensures Indent(1) == "|   " && Indent(2) == "|   |   "
  {
  }

  /** The lines of the chain. The depth-2 line is "|   |   +-- vim": one
      continuation marker per level above it. */
  lemma ChainLineValues()
    ensures Line(ChainForest()[0], false, 0) == "init\n"
    ensures Line(ChainForest()[1], false, 1) == "|   +-- bash\n"
    ensures Line(ChainForest()[2], false, 2) == "|   |   +-- vim\n"
  {
    IndentValues();
  }

  /** The same lines with `-p`. */
  lemma ChainPidLineValues()
    ensures Line(ChainForest()[0], true, 0) == "init(1)\n"
    ensures Line(ChainForest()[1], true, 1) == "|   +-- bash(10)\n"
    ensures Line(ChainForest()[2], true, 2) == "|   |   +-- vim(11)\n"
  {
    ChainPidLabels();
    ChainPidStrings();
    var f := ChainForest();
    LineOf(f[0], true, 0, "init(1)", "init(1)\n");
    LineOf(f[1], true, 1, "bash(10)", "|   +-- bash(10)\n");
    LineOf(f[2], true, 2, "vim(11)", "|   |   +-- vim(11)\n");
  }

  lemma ChainPidStrings()
    ensures Indent(0) + Branch(0) + "init(1)" + "\n" == "init(1)\n"
    ensures Indent(1) + Branch(1) + "bash(10)" + "\n" == "|   +-- bash(10)\n"
    ensures Indent(2) + Branch(2) + "vim(11)" + "\n" == "|   |   +-- vim(11)\n"
  {
    IndentValues();
  }

  /** A line is its indent, its branch marker, its label and a line break. */
  lemma LineOf(p: Process, showPids: bool, depth: nat, text: string, line: string)
    requires Label(p, showPids) == text && Indent(depth) + Branch(depth) + text + "\n" == line
    ensures Line(p, showPids, depth) == line
  {
  }

  lemma ChainPidLabels()
    ensures Label(ChainForest()[0], true) == "init(1)"
    ensures Label(ChainForest()[1], true) == "bash(10)"
    ensures Label(ChainForest()[2], true) == "vim(11)"
  {
    ChainPidDigits();
  }

  lemma ChainPidDigits()
    ensures NatDigits(1) == "1" && NatDigits(10) == "10" && NatDigits(11) == "11"
  {
    assert NatDigits(1) == "1";
    assert NatDigits(10) == NatDigits(1) + "0";
  }

  lemma ChainPlainText(a: string, b: string, c: string)
    requires a == "init\n" && b == "|   +-- bash\n" && c == "|   |   +-- vim\n"
    ensures a + (b + c) == "init\n|   +-- bash\n|   |   +-- vim\n"
  {
  }

  lemma ChainPidText(a: string, b: string, c: string)
    requires a == "init(1)\n" && b == "|   +-- bash(10)\n" && c == "|   |   +-- vim(11)\n"
    ensures a + (b + c) == "init(1)\n|   +-- bash(10)\n|   |   +-- vim(11)\n"
  {
  }

  /** The whole chain prints as three lines, whichever sort ran. */
  lemma ChainOutput(forest: seq<Process>, numericSort: bool)
    requires SortedForest(Linked(Chain()), forest, numericSort)
    ensures Graded(forest, ChainRank())
    ensures PrintPstree(forest, ChainRank(), 0, false) == "init\n|   +-- bash\n|   |   +-- vim\n"
    ensures PrintPstree(forest, ChainRank(), 0, true) == "init(1)\n|   +-- bash(10)\n|   |   +-- vim(11)\n"
  {
    ChainSorted(forest, numericSort);
    var rank := ChainRank();
    ChainGraded();
    ChainLines(forest, rank, false);
    ChainLines(forest, rank, true);
    ChainLineValues();
    ChainPidLineValues();
    ChainPlainText(Line(forest[0], false, 0), Line(forest[1], false, 1), Line(forest[2], false, 2));
    ChainPidText(Line(forest[0], true, 0), Line(forest[1], true, 1), Line(forest[2], true, 2));
  }

  /** `set_children` lists awk before zsh: it prepends, so init's list
      runs in reverse scan order. */
  lemma SiblingsLinked()
    ensures Linked(Siblings()) == SiblingsForest([2, 1])
  {
    var c := Siblings();
    var ps := Linked(c);
    assert ScanChildren(c, 1, 1) == [] && ScanChildren(c, 1, 2) == [1] && ScanChildren(c, 1, 3) == [2, 1];
    assert ScanChildren(c, 20, 1) == [] && ScanChildren(c, 20, 2) == [] && ScanChildren(c, 20, 3) == [];
    assert ScanChildren(c, 21, 1) == [] && ScanChildren(c, 21, 2) == [] && ScanChildren(c, 21, 3) == [];
    assert ps[0] == SiblingsForest([2, 1])[0] && ps[1] == SiblingsForest([2, 1])[1] && ps[2] == SiblingsForest([2, 1])[2];
  }

  /** Sorting by name keeps awk first; sorting by pid puts zsh (20) first. */
  lemma SiblingsOrder(ps: seq<Process>, kids: seq<nat>, numericSort: bool)
    requires ps == SiblingsForest([2, 1])
    requires SortedSiblings(ps, [2, 1], kids, numericSort)
    ensures kids == if numericSort then [1, 2] else [2, 1]
  {
    PairPermutation(kids, 2, 1);
    if numericSort {
      assert !InOrder(ps, true, 2, 1);
    } else {
      assert StrCmp("zsh", "awk") > 0;
      assert !InOrder(ps, false, 1, 2);
    }
  }

  lemma SiblingsSorted(forest: seq<Process>, numericSort: bool)
    requires SortedForest(Linked(Siblings()), forest, numericSort)
    ensures forest == SiblingsForest(if numericSort then [1, 2] else [2, 1])
  {
    SiblingsLinked();
    var ps := Linked(Siblings());
    SortedAt(ps, forest, numericSort, 0);
    SortedAt(ps, forest, numericSort, 1);
    SortedAt(ps, forest, numericSort, 2);
    SiblingsOrder(ps, forest[0].children, numericSort);
    assert forest[1].children == [] && forest[2].children == [];
    ThreeRecords(forest, SiblingsForest(if numericSort then [1, 2] else [2, 1]));
  }

  lemma SiblingsGraded(kids: seq<nat>)
    requires kids == [1, 2] || kids == [2, 1]
    ensures Graded(SiblingsForest(kids), SiblingsRank())
  {
  }

  /** Two leaf children print in child-list order, one level below the
      root. */
  lemma SiblingsLines(ps: seq<Process>, rank: map<nat, nat>, showPids: bool)
    requires Graded(ps, rank) && 0 in rank && |ps[0].children| == 2
    requires ps[ps[0].children[0]].children == [] && ps[ps[0].children[1]].children == []
    ensures PrintPstree(ps, rank, 0, showPids)
         == Line(ps[0], showPids, 0) + (Line(ps[ps[0].children[0]], showPids, 1) + Line(ps[ps[0].children[1]], showPids, 1))
  {
    LeafPrints(ps, rank, ps[0].children[0], showPids, 1);
    LeafPrints(ps, rank, ps[0].children[1], showPids, 1);
    TwoChildLoop(ps, rank, 0, showPids, 1);
    TopLine(ps[0], showPids);
  }

  lemma SiblingsLineValues(kids: seq<nat>)
    ensures Line(SiblingsForest(kids)[0], false, 0) == "init\n"
    ensures Line(SiblingsForest(kids)[1], false, 1) == "|   +-- zsh\n"
    ensures Line(SiblingsForest(kids)[2], false, 1) == "|   +-- awk\n"
  {
    IndentValues();
  }

  lemma SiblingsNameText(a: string, b: string, c: string)
    requires a == "init\n" && b == "|   +-- awk\n" && c == "|   +-- zsh\n"
    ensures a + (b + c) == "init\n|   +-- awk\n|   +-- zsh\n"
  {
  }

  lemma SiblingsPidText(a: string, b: string, c: string)
    requires a == "init\n" && b == "|   +-- zsh\n" && c == "|   +-- awk\n"
    ensures a + (b + c) == "init\n|   +-- zsh\n|   +-- awk\n"
  {
  }

  /** The resulting text for either sort key. */
  lemma SiblingsOutput(forest: seq<Process>, numericSort: bool)
    requires SortedForest(Linked(Siblings()), forest, numericSort)
    ensures Graded(forest, SiblingsRank())
    ensures !numericSort ==> PrintPstree(forest, SiblingsRank(), 0, false) == "init\n|   +-- awk\n|   +-- zsh\n"
    ensures numericSort ==> PrintPstree(forest, SiblingsRank(), 0, false) == "init\n|   +-- zsh\n|   +-- awk\n"
  {
    SiblingsSorted(forest, numericSort);
    var kids := if numericSort then [1, 2] else [2, 1];
    SiblingsLineValues(kids);
    SiblingsGraded(kids);
    SiblingsLines(forest, SiblingsRank(), false);
    if numericSort {
      SiblingsPidText(Line(forest[0], false, 0), Line(forest[1], false, 1), Line(forest[2], false, 1));
    } else {
      SiblingsNameText(Line(forest[0], false, 0), Line(forest[2], false, 1), Line(forest[1], false, 1));
    }
  }

  /** init(1), a record "lost" whose parent 99 is not in the table, and sh(8)
      under init. */
  function Dangling(): seq<Process>
  {
    [Process("init", 1, 0, []), Process("lost", 7, 99, []), Process("sh", 8, 1, [])]
  }

  function DanglingForest(): seq<Process>
  {
    [Process("init", 1, 0, [2]), Process("lost", 7, 99, []), Process("sh", 8, 1, [])]
  }

  /** The record "lost" is in no rank: nothing reaches it. */
  function DanglingRank(): map<nat, nat>
  {
    map[0 := 1, 2 := 0]
  }

  lemma DanglingLinked()
    ensures Linked(Dangling()) == DanglingForest()
  {
    var c := Dangling();
    var ps := Linked(c);
    assert ScanChildren(c, 1, 1) == [] && ScanChildren(c, 1, 2) == [] && ScanChildren(c, 1, 3) == [2];
    assert ScanChildren(c, 7, 1) == [] && ScanChildren(c, 7, 2) == [] && ScanChildren(c, 7, 3) == [];
    assert ScanChildren(c, 8, 1) == [] && ScanChildren(c, 8, 2) == [] && ScanChildren(c, 8, 3) == [];
    assert ps[0] == DanglingForest()[0] && ps[1] == DanglingForest()[1] && ps[2] == DanglingForest()[2];
  }

  lemma DanglingSorted(forest: seq<Process>, numericSort: bool)
    requires SortedForest(Linked(Dangling()), forest, numericSort)
    ensures forest == DanglingForest()
  {
    DanglingLinked();
    var ps := Linked(Dangling());
    SortedAt(ps, forest, numericSort, 0);
    SortedAt(ps, forest, numericSort, 1);
    SortedAt(ps, forest, numericSort, 2);
    SingletonPermutation(forest[0].children, 2);
    assert forest[1].children == [] && forest[2].children == [];
    ThreeRecords(forest, ps);
  }

  lemma DanglingGraded()
    ensures Graded(DanglingForest(), DanglingRank())
  {
  }

  lemma DanglingLines(ps: seq<Process>, rank: map<nat, nat>)
    requires Graded(ps, rank) && 0 in rank && |ps| == 3
    requires ps[0].children == [2] && ps[2].children == []
    ensures PrintPstree(ps, rank, 0, false) == Line(ps[0], false, 0) + Line(ps[2], false, 1)
  {
    assert ps[0].children[0] == 2;
    LeafPrints(ps, rank, 2, false, 1);
    OneChildLoop(ps, rank, 0, false, 1);
    TopLine(ps[0], false);
  }

  lemma DanglingText(a: string, b: string)
    requires a == "init\n" && b == "|   +-- sh\n"
    ensures a + b == "init\n|   +-- sh\n"
  {
  }

  /** The record with a missing parent is left out; the rest prints
      normally. */
  lemma DanglingOutput(forest: seq<Process>, numericSort: bool)
    requires SortedForest(Linked(Dangling()), forest, numericSort)
    ensures Graded(forest, DanglingRank())
    ensures PrintPstree(forest, DanglingRank(), 0, false) == "init\n|   +-- sh\n"
  {
    DanglingSorted(forest, numericSort);
    DanglingGraded();
    DanglingForestOutput();
  }

  lemma DanglingForestOutput()
    ensures PrintPstree(DanglingForest(), DanglingRank(), 0, false) == "init\n|   +-- sh\n"
  {
    var f := DanglingForest();
    DanglingGraded();
    DanglingLines(f, DanglingRank());
    IndentValues();
    assert Line(f[0], false, 0) == "init\n" && Line(f[2], false, 1) == "|   +-- sh\n";
    DanglingText(Line(f[0], false, 0), Line(f[2], false, 1));
  }

  /** With no record whose ppid is 0 the run reports the error and prints
      nothing; with two such records the first one in list order is the
      root. */
  method RootSelection() returns (out: Option<string>, init: Option<nat>)
    ensures out == None
    ensures init == Some(1)
  {
    var noRoot := [Process("a", 5, 4, []), Process("b", 6, 5, [])];
    out := PrintProcessTree(noRoot, false, false, map[]);
    assert noRoot[0].ppid != 0 && noRoot[1].ppid != 0;
    var twoRoots := [Process("x", 3, 7, []), Process("init", 1, 0, []), Process("kthreadd", 2, 0, [])];
    var l := new ProcessList(twoRoots);
    init := l.FindInit();
    assert l.procs[0].ppid != 0 && l.procs[1].ppid == 0;
  }

  /** init(1) with children a(10), b(11) and a second b(12). */
  function Ties(): seq<Process>
  {
    [Process("init", 1, 0, []), Process("a", 10, 1, []), Process("b", 11, 1, []), Process("b", 12, 1, [])]
  }

  /** The tie table with init's children in the order given. */
  function TiesForest(kids: seq<nat>): seq<Process>
  {
    [Process("init", 1, 0, kids), Process("a", 10, 1, []), Process("b", 11, 1, []), Process("b", 12, 1, [])]
  }

  /** `set_children` lists init's children as b(12), b(11), a(10). */
  lemma TiesLinked()
    ensures Linked(Ties()) == TiesForest([3, 2, 1])
  {
    var c := Ties();
    var ps := Linked(c);
    assert ScanChildren(c, 1, 2) == [1] && ScanChildren(c, 1, 3) == [2, 1] && ScanChildren(c, 1, 4) == [3, 2, 1];
    assert ScanChildren(c, 10, 4) == [] && ScanChildren(c, 11, 4) == [] && ScanChildren(c, 12, 4) == [];
    assert ps[0] == TiesForest([3, 2, 1])[0] && ps[1] == TiesForest([3, 2, 1])[1];
    assert ps[2] == TiesForest([3, 2, 1])[2] && ps[3] == TiesForest([3, 2, 1])[3];
  }

  /** With three siblings the exchange sort is not stable: the first round
      swaps a(10) to the front past both b's, so b(11) comes to stand before
      b(12) although the linked list had them the other way round. */
  lemma TiesReordered()
    ensures var ps := Linked(Ties());
      && ps[0].children == [3, 2, 1] && ps[3].name == ps[2].name
      && ExchangeSort(ps, false, ps[0].children) == [1, 2, 3]
  {
    TiesLinked();
    var ps := TiesForest([3, 2, 1]);
    var s := [3, 2, 1];
    assert StrCmp("b", "a") > 0;
    assert !Exchanges(ps, false, 3, 2) && Exchanges(ps, false, 3, 1) && !Exchanges(ps, false, 2, 3);
    assert PassUpTo(ps, false, s, 0, 2) == s;
    assert SortUpTo(ps, false, s, 1) == [1, 2, 3];
    assert PassUpTo(ps, false, [1, 2, 3], 1, 3) == [1, 2, 3];
    assert SortUpTo(ps, false, s, 2) == [1, 2, 3];
  }
}
