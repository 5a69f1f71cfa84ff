/** `print_pstree` and `print_pstree_helper` of pstree/pstree.c: the text
    they write to stdout, built as a string. */
module Render {
  import opened Pstree
  import opened Printf

  /** The records the renderer can reach from a node form no cycle: `rank`
      covers them and drops strictly along every child link. The C
      recursion only ends under this condition. */
  ghost predicate Graded(ps: seq<Process>, rank: map<nat, nat>)
  {
    forall i :: i in rank ==>
      && i < |ps|
      && forall k :: 0 <= k < |ps[i].children| ==>
           ps[i].children[k] in rank && rank[ps[i].children[k]] < rank[i]
  }

  /** The continuation markers: `depth` copies of "|   ". */
  function Indent(depth: nat): (r: string)
    ensures |r| == 4 * depth
  {
    if depth == 0 then "" else "|   " + Indent(depth - 1)
  }

  /** The optional `(pid)` after the name. */
  function PidSuffix(p: Process, showPids: bool): (r: string)
    ensures r == "" <==> !showPids
    ensures showPids ==> r[0] == '(' && r[|r| - 1] == ')'
  {
    if showPids then "(" + FormatInt(p.pid) + ")" else ""
  }

  /** The branch marker in front of every name below the root. */
  function Branch(depth: nat): (r: string)
    ensures |r| == (if depth > 0 then 4 else 0)
  {
    if depth > 0 then "+-- " else ""
  }

  /** The name and the optional pid. */
  function Label(p: Process, showPids: bool): (r: string)
    ensures |r| >= |p.name| && r[..|p.name|] == p.name
    ensures showPids <==> |r| > |p.name|
  {
    p.name + PidSuffix(p, showPids)
  }

  /** What follows the indent: branch marker, label, line break. */
  function Tail(p: Process, showPids: bool, depth: nat): (r: string)
    ensures |r| > |Branch(depth)| && r[..|Branch(depth)|] == Branch(depth) && r[|r| - 1] == '\n'
  {
    Branch(depth) + Label(p, showPids) + "\n"
  }

  /** One output line of `print_pstree_helper` at this depth. */
  function Line(p: Process, showPids: bool, depth: nat): (r: string)
    ensures |r| > 4 * depth && r[|r| - 1] == '\n'
    ensures r[..4 * depth] == Indent(depth)
  {
    Indent(depth) + Tail(p, showPids, depth)
  }

  /** `print_pstree_helper(p, show_pids, depth)`: the line of record i,
      then each child in list order, one level deeper. */
  function PrintHelper(ps: seq<Process>, ghost rank: map<nat, nat>, i: nat, showPids: bool, depth: nat): (r: string)
    requires Graded(ps, rank) && i in rank
    ensures |r| >= |Line(ps[i], showPids, depth)|
    ensures r[..|Line(ps[i], showPids, depth)|] == Line(ps[i], showPids, depth)
    decreases rank[i], 1
  {
    Line(ps[i], showPids, depth) + PrintChildren(ps, rank, i, 0, showPids, depth + 1)
  }

  /** The `while (children != NULL)` loop over record i's child list from
      position k on, each child printed at `depth`. */
  function PrintChildren(ps: seq<Process>, ghost rank: map<nat, nat>, i: nat, k: nat, showPids: bool, depth: nat): (r: string)
    requires Graded(ps, rank) && i in rank && k <= |ps[i].children|
    ensures r == "" <==> k == |ps[i].children|
    decreases rank[i], 0, |ps[i].children| - k
  {
    if k == |ps[i].children| then ""
    else PrintHelper(ps, rank, ps[i].children[k], showPids, depth) + PrintChildren(ps, rank, i, k + 1, showPids, depth)
  }

  /** `print_pstree(init, show_pids)`: the root line with neither indent nor
      branch marker, then the root's children from depth 1. */
  function PrintPstree(ps: seq<Process>, ghost rank: map<nat, nat>, init: nat, showPids: bool): (r: string)
    requires Graded(ps, rank) && init in rank
    ensures |r| > |Label(ps[init], showPids)|
    ensures r[..|Label(ps[init], showPids)| + 1] == Label(ps[init], showPids) + "\n"
  {
    ps[init].name + PidSuffix(ps[init], showPids) + "\n" + PrintChildren(ps, rank, init, 0, showPids, 1)
  }

  // ---------------------------------------------------------------------
  // The traversal behind the text

  /** A record and the depth it is printed at. */
  datatype Entry = Entry(node: nat, depth: nat)

  /** The pre-order walk the printer follows: the node itself, then the
      walks of its children in child-list order, one level deeper. */
  function Walk(ps: seq<Process>, ghost rank: map<nat, nat>, i: nat, depth: nat): (w: seq<Entry>)
    requires Graded(ps, rank) && i in rank
    ensures |w| > 0 && w[0] == Entry(i, depth)
    ensures forall e :: e in w ==> e.node in rank && rank[e.node] <= rank[i] && e.depth >= depth
    ensures forall e :: e in w[1..] ==> rank[e.node] < rank[i] && e.depth > depth
    decreases rank[i], 1
  {
    [Entry(i, depth)] + WalkChildren(ps, rank, i, 0, depth + 1)
  }

  /** The walks of record i's children from position k on. */
  function WalkChildren(ps: seq<Process>, ghost rank: map<nat, nat>, i: nat, k: nat, depth: nat): (w: seq<Entry>)
    requires Graded(ps, rank) && i in rank && k <= |ps[i].children|
    ensures forall e :: e in w ==> e.node in rank && rank[e.node] < rank[i] && e.depth >= depth
    decreases rank[i], 0, |ps[i].children| - k
  {
    if k == |ps[i].children| then []
    else Walk(ps, rank, ps[i].children[k], depth) + WalkChildren(ps, rank, i, k + 1, depth)
  }

  /** Strings written one after another. */
  function Concat(ls: seq<string>): (r: string)
  {
    if ls == [] then "" else ls[0] + Concat(ls[1..])
  }

  lemma {:induction false} ConcatAppend(a: seq<string>, b: seq<string>)
    ensures Concat(a + b) == Concat(a) + Concat(b)
  {
    if a == [] {
      assert a + b == b;
    } else {
      assert (a + b)[0] == a[0] && (a + b)[1..] == a[1..] + b;
      ConcatAppend(a[1..], b);
    }
  }

  /** The line of each entry. */
  function Texts(ps: seq<Process>, es: seq<Entry>, showPids: bool): (r: seq<string>)
    requires forall e :: e in es ==> e.node < |ps|
    ensures |r| == |es|
  {
    seq(|es|, k requires 0 <= k < |es| => Line(ps[es[k].node], showPids, es[k].depth))
  }

  /** The text of a sequence of entries, one line each. */
  function Lines(ps: seq<Process>, es: seq<Entry>, showPids: bool): (r: string)
    requires forall e :: e in es ==> e.node < |ps|
  {
    Concat(Texts(ps, es, showPids))
  }

  lemma LinesAppend(ps: seq<Process>, a: seq<Entry>, b: seq<Entry>, showPids: bool)
    requires forall e :: e in a ==> e.node < |ps|
    requires forall e :: e in b ==> e.node < |ps|
    ensures Lines(ps, a + b, showPids) == Lines(ps, a, showPids) + Lines(ps, b, showPids)
  {
    var ta, tb := Texts(ps, a, showPids), Texts(ps, b, showPids);
    forall k | 0 <= k < |a + b|
      ensures Texts(ps, a + b, showPids)[k] == (ta + tb)[k]
    {
      if k < |a| {
        assert (a + b)[k] == a[k];
      } else {
        assert (a + b)[k] == b[k - |a|];
      }
    }
    assert Texts(ps, a + b, showPids) == ta + tb;
    ConcatAppend(Texts(ps, a, showPids), Texts(ps, b, showPids));
  }

  lemma LinesSingle(ps: seq<Process>, e: Entry, showPids: bool)
    requires e.node < |ps|
    ensures Lines(ps, [e], showPids) == Line(ps[e.node], showPids, e.depth)
  {
    var ls := Texts(ps, [e], showPids);
    assert ls == [Line(ps[e.node], showPids, e.depth)];
    assert Concat(ls) == ls[0] + Concat(ls[1..]);
    assert ls[1..] == [];
  }

  /** The printer writes exactly one line per entry of the walk, in order. */
  lemma {:induction false} PrintHelperWritesWalk(ps: seq<Process>, rank: map<nat, nat>, i: nat, showPids: bool, depth: nat)
    requires Graded(ps, rank) && i in rank
    ensures PrintHelper(ps, rank, i, showPids, depth) == Lines(ps, Walk(ps, rank, i, depth), showPids)
    decreases rank[i], 1
  {
    var rest := WalkChildren(ps, rank, i, 0, depth + 1);
    PrintChildrenWritesWalk(ps, rank, i, 0, showPids, depth + 1);
    LinesAppend(ps, [Entry(i, depth)], rest, showPids);
    LinesSingle(ps, Entry(i, depth), showPids);
  }

  lemma {:induction false} PrintChildrenWritesWalk(ps: seq<Process>, rank: map<nat, nat>, i: nat, k: nat, showPids: bool, depth: nat)
    requires Graded(ps, rank) && i in rank && k <= |ps[i].children|
    ensures PrintChildren(ps, rank, i, k, showPids, depth) == Lines(ps, WalkChildren(ps, rank, i, k, depth), showPids)
    decreases rank[i], 0, |ps[i].children| - k
  {
    if k < |ps[i].children| {
      var c := ps[i].children[k];
      PrintHelperWritesWalk(ps, rank, c, showPids, depth);
      PrintChildrenWritesWalk(ps, rank, i, k + 1, showPids, depth);
      LinesAppend(ps, Walk(ps, rank, c, depth), WalkChildren(ps, rank, i, k + 1, depth), showPids);
    } else {
      assert Texts(ps, [], showPids) == [];
    }
  }

  /** `print_pstree` writes the walk from the root at depth 0: its first
      line is the root's own line with no markers, and every other line is
      a descendant's line at depth at least 1, before the next sibling's. */
  lemma PrintPstreeWritesWalk(ps: seq<Process>, rank: map<nat, nat>, init: nat, showPids: bool)
    requires Graded(ps, rank) && init in rank
    ensures PrintPstree(ps, rank, init, showPids) == Lines(ps, Walk(ps, rank, init, 0), showPids)
    ensures PrintPstree(ps, rank, init, showPids) == PrintHelper(ps, rank, init, showPids, 0)
  {
    PrintHelperWritesWalk(ps, rank, init, showPids, 0);
    TopLine(ps[init], showPids);
  }

  /** At depth 0 a line carries neither indent nor branch marker. */
  lemma TopLine(p: Process, showPids: bool)
    ensures Line(p, showPids, 0) == p.name + PidSuffix(p, showPids) + "\n"
  {
    assert Indent(0) == "";
  }

  // ---------------------------------------------------------------------
  // Line layout

  /** The indent is `depth` blocks of the four characters "|   ". */
  lemma {:induction false} IndentLayout(depth: nat)
    ensures |Indent(depth)| == 4 * depth
    ensures forall b :: 0 <= b < depth ==> Indent(depth)[4 * b..4 * b + 4] == "|   "
  {
    if depth > 0 {
      IndentLayout(depth - 1);
      var rest := Indent(depth - 1);
      forall b | 0 <= b < depth
        ensures Indent(depth)[4 * b..4 * b + 4] == "|   "
      {
        if b > 0 {
          assert Indent(depth)[4 * b..4 * b + 4] == rest[4 * (b - 1)..4 * (b - 1) + 4];
        }
      }
    }
  }

  /** The number of whole "|   " blocks a line starts with. */
  function LeadingBars(s: string): (n: nat)
    ensures 4 * n <= |s|
  {
    if |s| >= 4 && s[..4] == "|   " then 1 + LeadingBars(s[4..]) else 0
  }

  /** A text with no line break in it. */
  predicate NoNewline(s: string)
  {
    forall i :: 0 <= i < |s| ==> s[i] != '\n'
  }

  /** A name that cannot be mistaken for markers or for a line break: it
      does not begin with "|" or "+" and holds no line break. */
  predicate PlainName(name: string)
  {
    && (|name| == 0 || (name[0] != '|' && name[0] != '+'))
    && NoNewline(name)
  }

  lemma {:induction false} LeadingBarsIndent(depth: nat, rest: string)
    requires |rest| < 4 || rest[..4] != "|   "
    ensures LeadingBars(Indent(depth) + rest) == depth
  {
    if depth > 0 {
      assert (Indent(depth) + rest)[4..] == Indent(depth - 1) + rest;
      LeadingBarsIndent(depth - 1, rest);
    }
  }

  /** The depth of a line can be read back from it: exactly `depth`
      continuation markers, then the branch marker iff depth > 0, then the
      name with its pid suffix and the line break. */
  lemma LineDepth(p: Process, showPids: bool, depth: nat)
    requires PlainName(p.name)
    ensures LeadingBars(Line(p, showPids, depth)) == depth
    ensures |Line(p, showPids, depth)| >= 4 * depth
    ensures var after := Line(p, showPids, depth)[4 * depth..];
      depth > 0 <==> (|after| >= 4 && after[..4] == "+-- ")
    ensures Line(p, showPids, depth)[4 * depth + |Branch(depth)|..] == Label(p, showPids) + "\n"
  {
    LineLabel(p, showPids, depth);
    IndentLayout(depth);
    var tail := Tail(p, showPids, depth);
    TailShape(p, showPids, depth);
    assert Line(p, showPids, depth)[4 * depth..] == tail;
    LeadingBarsIndent(depth, tail);
  }

  /** After the indent and the branch marker comes the label. */
  lemma LineLabel(p: Process, showPids: bool, depth: nat)
    ensures |Line(p, showPids, depth)| >= 4 * depth + |Branch(depth)|
    ensures Line(p, showPids, depth)[4 * depth + |Branch(depth)|..] == Label(p, showPids) + "\n"
  {
    var b := Branch(depth);
    var l := Label(p, showPids) + "\n";
    assert Line(p, showPids, depth) == Indent(depth) + b + l;
  }

  /** What follows the indent starts with the branch marker iff depth > 0,
      and never with a continuation marker. */
  lemma TailShape(p: Process, showPids: bool, depth: nat)
    requires PlainName(p.name)
    ensures var t := Tail(p, showPids, depth);
      && |t| > 0 && t[0] != '|'
      && (|t| < 4 || t[..4] != "|   ")
      && (depth > 0 <==> (|t| >= 4 && t[..4] == "+-- "))
  {
    var t := Tail(p, showPids, depth);
    if depth > 0 {
      assert t[..4] == "+-- ";
    } else {
      assert t == p.name + PidSuffix(p, showPids) + "\n";
      if p.name != [] {
        assert t[0] == p.name[0];
      } else if showPids {
        assert t[0] == '(';
      } else {
        assert t == "\n";
      }
    }
    assert |t| >= 4 ==> t[..4][0] == t[0];
  }

  // ---------------------------------------------------------------------
  // Counting lines

  /** The number of line breaks in a string. */
  function Newlines(s: string): (n: nat)
  {
    if s == [] then 0 else (if s[0] == '\n' then 1 else 0) + Newlines(s[1..])
  }

  lemma {:induction false} NewlinesAppend(a: string, b: string)
    ensures Newlines(a + b) == Newlines(a) + Newlines(b)
  {
    if a != [] {
      assert (a + b)[0] == a[0] && (a + b)[1..] == a[1..] + b;
      NewlinesAppend(a[1..], b);
    } else {
      assert a + b == b;
    }
  }

  lemma {:induction false} NewlinesNone(s: string)
    requires NoNewline(s)
    ensures Newlines(s) == 0
  {
    if s != [] {
      NewlinesNone(s[1..]);
    }
  }

  lemma {:induction false} IndentNoNewline(depth: nat)
    ensures Newlines(Indent(depth)) == 0
  {
    if depth > 0 {
      IndentNoNewline(depth - 1);
      NewlinesAppend("|   ", Indent(depth - 1));
    }
  }

  lemma LabelNoNewline(p: Process, showPids: bool)
    requires NoNewline(p.name)
    ensures Newlines(Label(p, showPids)) == 0
  {
    NewlinesNone(p.name);
    if showPids {
      var f := FormatInt(p.pid);
      FormatIntIsNumeric(p.pid);
      NewlinesNone(f);
      NewlinesNone("(");
      NewlinesNone(")");
      NewlinesAppend("(", f);
      NewlinesAppend("(" + f, ")");
      NewlinesAppend(p.name, "(" + f + ")");
    } else {
      assert Label(p, showPids) == p.name + "";
      NewlinesAppend(p.name, "");
    }
  }

  /** A line holds exactly one line break, at its end. */
  lemma LineHasOneNewline(p: Process, showPids: bool, depth: nat)
    requires NoNewline(p.name)
    ensures Newlines(Line(p, showPids, depth)) == 1
  {
    IndentNoNewline(depth);
    LabelNoNewline(p, showPids);
    var b, c := Branch(depth), Label(p, showPids);
    NewlinesNone(b);
    assert Newlines("\n") == 1;
    NewlinesAppend(b, c);
    NewlinesAppend(b + c, "\n");
    NewlinesAppend(Indent(depth), Tail(p, showPids, depth));
  }

  lemma {:induction false} ConcatCount(ls: seq<string>)
    requires forall k :: 0 <= k < |ls| ==> Newlines(ls[k]) == 1
    ensures Newlines(Concat(ls)) == |ls|
  {
    if ls != [] {
      ConcatCount(ls[1..]);
      NewlinesAppend(ls[0], Concat(ls[1..]));
    }
  }

  lemma LinesCount(ps: seq<Process>, es: seq<Entry>, showPids: bool)
    requires forall e :: e in es ==> e.node < |ps| && NoNewline(ps[e.node].name)
    ensures Newlines(Lines(ps, es, showPids)) == |es|
  {
    var ls := Texts(ps, es, showPids);
    forall k | 0 <= k < |ls| ensures Newlines(ls[k]) == 1 {
      assert es[k] in es;
      LineHasOneNewline(ps[es[k].node], showPids, es[k].depth);
    }
    ConcatCount(ls);
  }

  /** When no name holds a line break, the output has one line per entry
      of the walk from the root. */
  lemma PrintPstreeLineCount(ps: seq<Process>, rank: map<nat, nat>, init: nat, showPids: bool)
    requires Graded(ps, rank) && init in rank
    requires forall i :: 0 <= i < |ps| ==> NoNewline(ps[i].name)
    ensures Newlines(PrintPstree(ps, rank, init, showPids)) == |Walk(ps, rank, init, 0)|
  {
    PrintPstreeWritesWalk(ps, rank, init, showPids);
    LinesCount(ps, Walk(ps, rank, init, 0), showPids);
  }
}
