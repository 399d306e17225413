/** collect_adjacencies of src/compile.c: a depth-first search from every node that the recognizer
    can stand on, marking the forks on the current path, fills that node's list of the next ones. */
module Compile {
  import opened BranchLists
  import opened NfaGraph
  import opened NfaConstruct
  import opened NfaAlloc
  import opened Nfa
  import opened EpsilonClosure

  // ---------------------------------------------------------------- what a search may change

  predicate Forking(v: Value) { v.SPLIT? || v.TREE? }

  /** The forks on the current path. */
  ghost function OnPath(nodes: seq<NFA>, d: set<Addr>): set<Addr> {
    set a | a in d && a < |nodes| && nodes[a].visited && Forking(nodes[a].value)
  }

  /** The forks not on it. */
  ghost function OffPath(nodes: seq<NFA>, d: set<Addr>): set<Addr> {
    set a | a in d && a < |nodes| && !nodes[a].visited && Forking(nodes[a].value)
  }

  /** A search for `own` nodes changes only its results; the mark of an epsilon node may get lost. */
  ghost predicate Touched(x: NFA, y: NFA, own: bool) {
    && y == (if own then x.(visited := y.visited, reachable := y.reachable, accepts := y.accepts)
             else x.(visited := y.visited))
    && (y.visited == x.visited || (x.value == EPSILON && x.visited))
  }

  ghost predicate Searched(n0: seq<NFA>, n1: seq<NFA>, current: Addr) {
    |n1| == |n0| && forall a :: 0 <= a < |n0| ==> Touched(n0[a], n1[a], a == current)
  }

  lemma SearchedBoth(n0: seq<NFA>, n1: seq<NFA>, n2: seq<NFA>, current: Addr)
    requires Searched(n0, n1, current) && Searched(n1, n2, current)
    ensures Searched(n0, n2, current)
  {
  }

  lemma SearchedView(n0: seq<NFA>, n1: seq<NFA>, current: Addr, d: set<Addr>)
    requires Searched(n0, n1, current) && forall a :: a in d ==> a < |n0|
    ensures View(n1, d) == View(n0, d) && OnPath(n1, d) == OnPath(n0, d) && OffPath(n1, d) == OffPath(n0, d)
  {
  }

  /** The list of x has been extended, without repeats, by the nodes in c. */
  ghost predicate Collected(x: NFA, y: NFA, c: set<Addr>, accept: Addr) {
    && Distinct(y.reachable) && Elements(y.reachable) == Elements(x.reachable) + c
    && (y.accepts <==> x.accepts || accept in c)
  }

  lemma CollectedBoth(x: NFA, y: NFA, z: NFA, b: set<Addr>, c: set<Addr>, accept: Addr)
    requires Collected(x, y, b, accept) && Collected(y, z, c, accept)
    ensures Collected(x, z, b + c, accept)
  {
  }

  /** What a search works on: the cells of the fragment, their graph with a ranking, its exit. */
  datatype Scene = Scene(d: set<Addr>, g: Graph, rank: Rank, accept: Addr)

  ghost predicate Searchable(nodes: seq<NFA>, s: Scene) {
    && (forall a :: a in s.d ==> a < |nodes|) && View(nodes, s.d) == s.g && Closed(s.g) && Ranked(s.g, s.rank)
    && s.accept in s.d && s.g[s.accept] == Accept && forall a :: a in s.d && s.g[a] == Accept ==> a == s.accept
  }

  /** The search at `visiting` has added what can be reached without crossing the current path. */
  ghost predicate Found(n0: seq<NFA>, n1: seq<NFA>, current: Addr, c: set<Addr>, accept: Addr) {
    Searched(n0, n1, current) && current < |n0| && Collected(n0[current], n1[current], c, accept)
  }

  lemma FoundBoth(n0: seq<NFA>, n1: seq<NFA>, n2: seq<NFA>, current: Addr, b: set<Addr>, c: set<Addr>, accept: Addr)
    requires Found(n0, n1, current, b, accept) && Found(n1, n2, current, c, accept)
    ensures Found(n0, n2, current, b + c, accept)
  {
    SearchedBoth(n0, n1, n2, current);
    CollectedBoth(n0[current], n1[current], n2[current], b, c, accept);
  }

  /** A node that the search starts at and could list itself has been marked before. */
  predicate Entered(nodes: seq<NFA>, current: Addr) {
    current < |nodes| && (nodes[current].visited || Forking(nodes[current].value) || nodes[current].value == EPSILON)
  }

  /** A search leaves the graph and the path as they were. */
  lemma StillSearchable(n0: seq<NFA>, n1: seq<NFA>, current: Addr, s: Scene, c: set<Addr>)
    requires Found(n0, n1, current, c, s.accept) && Searchable(n0, s)
    ensures Searchable(n1, s) && current < |n1| && Distinct(n1[current].reachable)
    ensures Entered(n0, current) ==> Entered(n1, current)
    ensures OnPath(n1, s.d) == OnPath(n0, s.d) && OffPath(n1, s.d) == OffPath(n0, s.d)
    ensures forall a :: 0 <= a < |n1| ==>
              n1[a].value == n0[a].value && n1[a].out1 == n0[a].out1 && n1[a].out2 == n0[a].out2
  {
    SearchedView(n0, n1, current, s.d);
  }

  /** SET_NFA_VISITED_FLAG and CLEAR_NFA_VISITED_FLAG */
  function SetVisited(nodes: seq<NFA>, a: Addr, v: bool): seq<NFA>
    requires a < |nodes|
  {
    nodes[a := nodes[a].(visited := v)]
  }

  lemma MarkKeeps(n: seq<NFA>, a: Addr, v: bool, s: Scene, current: Addr)
    requires Searchable(n, s) && a in s.d && a < |n| && current < |n| && Distinct(n[current].reachable)
    ensures var m := SetVisited(n, a, v);
            && Searchable(m, s) && |m| == |n| && Distinct(m[current].reachable)
            && m[a].value == n[a].value && m[a].out1 == n[a].out1 && m[a].out2 == n[a].out2
            && (v && Entered(n, current) ==> Entered(m, current))
  {
    MarkView(n, a, v, s.d);
    hide View;
    hide Closed;
    hide Ranked;
    hide Distinct;
  }

  lemma MarkView(n: seq<NFA>, a: Addr, v: bool, d: set<Addr>)
    requires a < |n| && forall x :: x in d ==> x < |n|
    ensures View(SetVisited(n, a, v), d) == View(n, d)
  {
  }

  lemma MarkOther(n: seq<NFA>, a: Addr, d: set<Addr>)
    requires a < |n| && !Forking(n[a].value)
    ensures var m := SetVisited(n, a, true); OnPath(m, d) == OnPath(n, d) && OffPath(m, d) == OffPath(n, d)
  {
  }

  lemma MarkFork(n: seq<NFA>, a: Addr, d: set<Addr>)
    requires a < |n| && a in d && Forking(n[a].value) && !n[a].visited
    ensures var m := SetVisited(n, a, true);
            && OnPath(m, d) == OnPath(n, d) + {a}
            && a in OffPath(n, d) && OffPath(m, d) == OffPath(n, d) - {a} && |OffPath(m, d)| < |OffPath(n, d)|
  {
    assert OffPath(SetVisited(n, a, true), d) == OffPath(n, d) - {a};
  }

  /** Setting the mark before and clearing it after a search leaves a search. */
  lemma MarkAndClear(n0: seq<NFA>, n2: seq<NFA>, a: Addr, current: Addr, c: set<Addr>, accept: Addr)
    requires a < |n0| && Found(SetVisited(n0, a, true), n2, current, c, accept)
    requires n0[a].value == EPSILON || !n0[a].visited
    ensures a < |n2| && Found(n0, SetVisited(n2, a, false), current, c, accept)
  {
  }

  // ---------------------------------------------------------------- the search

  /** collect_adjacencies_helper, without its interval branches. The branch for a node that the search
      has just started at is never taken: such a node carries its mark. */
  method CollectHelper(ctrl: NFACtrl, current: Addr, visiting: Addr, ghost s: Scene)
    requires Searchable(ctrl.nodes, s) && visiting in s.d && current < |ctrl.nodes|
    requires Distinct(ctrl.nodes[current].reachable)
    requires Entered(ctrl.nodes, current)
    modifies ctrl`nodes
    ensures Found(old(ctrl.nodes), ctrl.nodes, current, Closure(s.g, visiting, OnPath(old(ctrl.nodes), s.d)), s.accept)
    decreases |OffPath(ctrl.nodes, s.d)|, s.rank[visiting], 1
  {
    if ctrl.nodes[visiting].value == EPSILON {
      VisitEpsilon(ctrl, current, visiting, s);
    } else if ctrl.nodes[visiting].visited {
      VisitMarked(ctrl, current, visiting, s);
    } else if ctrl.nodes[visiting].value.TREE? {
      VisitTree(ctrl, current, visiting, s);
    } else if ctrl.nodes[visiting].value == SPLIT {
      VisitSplit(ctrl, current, visiting, s);
    } else {
      assert visiting != current;
      VisitStop(ctrl, current, visiting, s);
    }
  }

  method VisitEpsilon(ctrl: NFACtrl, current: Addr, visiting: Addr, ghost s: Scene)
    requires Searchable(ctrl.nodes, s) && visiting in s.d && current < |ctrl.nodes|
    requires Distinct(ctrl.nodes[current].reachable) && ctrl.nodes[visiting].value == EPSILON
    requires Entered(ctrl.nodes, current)
    modifies ctrl`nodes
    ensures Found(old(ctrl.nodes), ctrl.nodes, current, Closure(s.g, visiting, OnPath(old(ctrl.nodes), s.d)), s.accept)
    decreases |OffPath(ctrl.nodes, s.d)|, s.rank[visiting], 0
  {
    ghost var n := ctrl.nodes;
    AtEpsilon(n, s, visiting);
    MarkKeeps(n, visiting, true, s, current);
    MarkOther(n, visiting, s.d);
    hide *;
    ctrl.nodes := SetVisited(ctrl.nodes, visiting, true);
    CollectHelper(ctrl, current, ctrl.nodes[visiting].out2, s);
    ghost var m := ctrl.nodes;
    MarkAndClear(n, m, visiting, current, Closure(s.g, visiting, OnPath(n, s.d)), s.accept);
    ctrl.nodes := SetVisited(ctrl.nodes, visiting, false);
  }

  lemma AtEpsilon(n: seq<NFA>, s: Scene, v: Addr)
    requires Searchable(n, s) && v in s.d && v < |n| && n[v].value == EPSILON
    ensures n[v].out2 in s.d && n[v].out2 in s.rank && v in s.rank && s.rank[n[v].out2] < s.rank[v]
    ensures Closure(s.g, v, OnPath(n, s.d)) == Closure(s.g, n[v].out2, OnPath(n, s.d))
  {
    ViewIs(n, s.d);
    assert s.g[v] == Epsilon(n[v].out2) && n[v].out2 in Outs(s.g[v]);
    assert Descends(s.g[v], s.rank, s.rank[v]);
    ClosureAtEpsilon(s.g, v, OnPath(n, s.d));
  }

  method VisitSplit(ctrl: NFACtrl, current: Addr, visiting: Addr, ghost s: Scene)
    requires Searchable(ctrl.nodes, s) && visiting in s.d && current < |ctrl.nodes|
    requires Distinct(ctrl.nodes[current].reachable) && ctrl.nodes[visiting].value == SPLIT
    requires !ctrl.nodes[visiting].visited
    requires Entered(ctrl.nodes, current)
    modifies ctrl`nodes
    ensures Found(old(ctrl.nodes), ctrl.nodes, current, Closure(s.g, visiting, OnPath(old(ctrl.nodes), s.d)), s.accept)
    decreases |OffPath(ctrl.nodes, s.d)|, s.rank[visiting], 0
  {
    ghost var n := ctrl.nodes;
    AtSplit(n, s, visiting);
    MarkKeeps(n, visiting, true, s, current);
    MarkFork(n, visiting, s.d);
    hide *;
    ctrl.nodes := SetVisited(ctrl.nodes, visiting, true);
    ghost var n1 := ctrl.nodes;
    CollectHelper(ctrl, current, ctrl.nodes[visiting].out1, s);
    ghost var n2, c1 := ctrl.nodes, Closure(s.g, n[visiting].out1, OnPath(n1, s.d));
    StillSearchable(n1, n2, current, s, c1);
    CollectHelper(ctrl, current, ctrl.nodes[visiting].out2, s);
    ghost var n3, c2 := ctrl.nodes, Closure(s.g, n[visiting].out2, OnPath(n1, s.d));
    FoundBoth(n1, n2, n3, current, c1, c2, s.accept);
    MarkAndClear(n, n3, visiting, current, c1 + c2, s.accept);
    ctrl.nodes := SetVisited(ctrl.nodes, visiting, false);
  }

  lemma AtSplit(n: seq<NFA>, s: Scene, v: Addr)
    requires Searchable(n, s) && v in s.d && v < |n| && n[v].value == SPLIT && !n[v].visited
    ensures n[v].out1 in s.d && n[v].out2 in s.d
    ensures Closure(s.g, v, OnPath(n, s.d))
         == Closure(s.g, n[v].out1, OnPath(n, s.d) + {v}) + Closure(s.g, n[v].out2, OnPath(n, s.d) + {v})
  {
    ViewIs(n, s.d);
    assert s.g[v] == Split(n[v].out1, n[v].out2) && n[v].out1 in Outs(s.g[v]) && n[v].out2 in Outs(s.g[v]);
    ClosureAtSplit(s.g, v, OnPath(n, s.d));
  }

  method VisitTree(ctrl: NFACtrl, current: Addr, visiting: Addr, ghost s: Scene)
    requires Searchable(ctrl.nodes, s) && visiting in s.d && current < |ctrl.nodes|
    requires Distinct(ctrl.nodes[current].reachable) && ctrl.nodes[visiting].value.TREE?
    requires !ctrl.nodes[visiting].visited
    requires Entered(ctrl.nodes, current)
    modifies ctrl`nodes
    ensures Found(old(ctrl.nodes), ctrl.nodes, current, Closure(s.g, visiting, OnPath(old(ctrl.nodes), s.d)), s.accept)
    decreases |OffPath(ctrl.nodes, s.d)|, s.rank[visiting], 0
  {
    ghost var n := ctrl.nodes;
    ghost var l, path := n[visiting].value.branches, OnPath(n, s.d) + {visiting};
    AtTree(n, s, visiting);
    MarkKeeps(n, visiting, true, s, current);
    MarkFork(n, visiting, s.d);
    hide *;
    ctrl.nodes := SetVisited(ctrl.nodes, visiting, true);
    ghost var n1 := ctrl.nodes;
    SearchBranches(ctrl, current, visiting, s);
    MarkAndClear(n, ctrl.nodes, visiting, current, Branches(s.g, Seen(l), path), s.accept);
    ctrl.nodes := SetVisited(ctrl.nodes, visiting, false);
  }

  /** What is known when the first i places of the list have been looked at. */
  ghost predicate BranchesDone(n: seq<NFA>, m: seq<NFA>, current: Addr, visiting: Addr, s: Scene,
                               l: BranchList<Addr>, i: nat) {
    && i <= l.size && Entered(m, current) && Distinct(m[current].reachable) && Searchable(m, s)
    && |m| == |n| && visiting < |n| && n[visiting].value == TREE(l) && m[visiting].value == TREE(l)
    && Found(n, m, current, Branches(s.g, SeenTo(l, i), OnPath(n, s.d)), s.accept)
    && OnPath(m, s.d) == OnPath(n, s.d) && OffPath(m, s.d) == OffPath(n, s.d)
  }

  lemma NoBranchDone(n: seq<NFA>, current: Addr, visiting: Addr, s: Scene)
    requires Searchable(n, s) && visiting < |n| && n[visiting].value.TREE?
    requires Entered(n, current) && Distinct(n[current].reachable)
    ensures BranchesDone(n, n, current, visiting, s, n[visiting].value.branches, 0)
  {
    NothingFound(n, current, s);
    NoBranch(s.g, OnPath(n, s.d));
    hide Searchable;
    hide Found;
    hide OnPath;
    hide OffPath;
  }

  /** The next place of the list; a search from NULL ends at once. */
  method SearchBranch(ctrl: NFACtrl, current: Addr, visiting: Addr, i: nat, ghost n: seq<NFA>,
                      ghost l: BranchList<Addr>, ghost s: Scene)
    requires BranchesDone(n, ctrl.nodes, current, visiting, s, l, i) && i < l.size
    requires forall b :: b in Seen(l) ==> b in s.d
    requires forall a :: a in s.d ==> a in s.rank && s.rank[a] < Top(s.rank)
    modifies ctrl`nodes
    ensures BranchesDone(n, ctrl.nodes, current, visiting, s, l, i + 1)
    decreases |OffPath(ctrl.nodes, s.d)|, Top(s.rank), 0
  {
    ghost var m := ctrl.nodes;
    BranchesNow(n, m, current, visiting, s, l, i);
    SeenNext(l, i);
    var branch := GetAt(ctrl.nodes[visiting].value.branches, i);
    assert branch.Some? ==> branch.value in s.d && s.rank[branch.value] < Top(s.rank);
    hide *;
    if branch.Some? {
      CollectHelper(ctrl, current, branch.value, s);
      NextBranchDone(n, m, ctrl.nodes, current, visiting, s, l, i, branch.value);
    } else {
      NoNextBranch(n, m, current, visiting, s, l, i);
    }
  }

  lemma {:induction false} SeenPrefix<T>(l: BranchList<T>, i: nat, j: nat)
    requires i <= j
    ensures SeenTo(l, i) <= SeenTo(l, j)
    decreases j
  {
    if i < j {
      SeenPrefix(l, i, j - 1);
    }
  }

  lemma SeenNext<T>(l: BranchList<T>, i: nat)
    requires i < l.size
    ensures match GetAt(l, i) case None => true case Some(b) => b in Seen(l)
  {
    SeenPrefix(l, i + 1, l.size);
    var r := SeenTo(l, i + 1);
    match GetAt(l, i)
    case None =>
    case Some(b) => assert r[|r| - 1] == b && Seen(l)[|r| - 1] == b;
  }

  lemma BranchesNow(n: seq<NFA>, m: seq<NFA>, current: Addr, visiting: Addr, s: Scene, l: BranchList<Addr>, i: nat)
    requires BranchesDone(n, m, current, visiting, s, l, i)
    ensures Searchable(m, s) && visiting < |m| && m[visiting].value == TREE(l) && |m| == |n|
    ensures Entered(m, current) && current < |m| && Distinct(m[current].reachable)
    ensures Found(n, m, current, Branches(s.g, SeenTo(l, i), OnPath(n, s.d)), s.accept)
    ensures OnPath(m, s.d) == OnPath(n, s.d) && OffPath(m, s.d) == OffPath(n, s.d)
  {
  }

  lemma NoNextBranch(n: seq<NFA>, m: seq<NFA>, current: Addr, visiting: Addr, s: Scene, l: BranchList<Addr>, i: nat)
    requires BranchesDone(n, m, current, visiting, s, l, i) && i < l.size && GetAt(l, i) == None
    ensures BranchesDone(n, m, current, visiting, s, l, i + 1)
  {
    assert SeenTo(l, i + 1) == SeenTo(l, i);
  }

  lemma NextBranchDone(n: seq<NFA>, m: seq<NFA>, o: seq<NFA>, current: Addr, visiting: Addr, s: Scene,
                       l: BranchList<Addr>, i: nat, b: Addr)
    requires BranchesDone(n, m, current, visiting, s, l, i) && i < l.size && GetAt(l, i) == Some(b)
    requires Found(m, o, current, Closure(s.g, b, OnPath(m, s.d)), s.accept)
    ensures BranchesDone(n, o, current, visiting, s, l, i + 1)
  {
    StillSearchable(m, o, current, s, Closure(s.g, b, OnPath(m, s.d)));
    FoundBranch(n, m, o, current, s, SeenTo(l, i), b, OnPath(n, s.d));
    FoundSize(m, o, current, Closure(s.g, b, OnPath(m, s.d)), s.accept);
    assert SeenTo(l, i + 1) == SeenTo(l, i) + [b];
    hide Found;
    hide Searchable;
    hide OnPath;
    hide OffPath;
    hide Branches;
    hide Closure;
    hide Distinct;
    hide SeenTo;
    hide GetAt;
  }

  lemma FoundSize(n: seq<NFA>, m: seq<NFA>, current: Addr, c: set<Addr>, accept: Addr)
    requires Found(n, m, current, c, accept)
    ensures |m| == |n|
  {
  }

  /** The loop over the branches. */
  method SearchBranches(ctrl: NFACtrl, current: Addr, visiting: Addr, ghost s: Scene)
    requires Searchable(ctrl.nodes, s) && visiting in s.d && current < |ctrl.nodes|
    requires Distinct(ctrl.nodes[current].reachable) && ctrl.nodes[visiting].value.TREE?
    requires forall b :: b in Seen(ctrl.nodes[visiting].value.branches) ==> b in s.d
    requires Entered(ctrl.nodes, current)
    modifies ctrl`nodes
    ensures var l := old(ctrl.nodes)[visiting].value.branches;
            Found(old(ctrl.nodes), ctrl.nodes, current, Branches(s.g, Seen(l), OnPath(old(ctrl.nodes), s.d)), s.accept)
    decreases |OffPath(ctrl.nodes, s.d)|, Top(s.rank), 1
  {
    ghost var n, l := ctrl.nodes, ctrl.nodes[visiting].value.branches;
    NoBranchDone(n, current, visiting, s);
    RankBelowTop(n, s);
    assert Seen(l) == SeenTo(l, l.size);
    hide *;
    var i := 0;
    while i < ctrl.nodes[visiting].value.branches.size
      invariant 0 <= i <= l.size && visiting < |ctrl.nodes| && ctrl.nodes[visiting].value == TREE(l)
      invariant BranchesDone(n, ctrl.nodes, current, visiting, s, l, i)
      invariant OffPath(ctrl.nodes, s.d) == OffPath(n, s.d)
    {
      SearchBranch(ctrl, current, visiting, i, n, l, s);
      i := i + 1;
      BranchesNow(n, ctrl.nodes, current, visiting, s, l, i);
    }
    assert i == l.size;
    BranchesNow(n, ctrl.nodes, current, visiting, s, l, l.size);
  }

  lemma RankBelowTop(n: seq<NFA>, s: Scene)
    requires Searchable(n, s)
    ensures forall a :: a in s.d ==> a in s.rank && s.rank[a] < Top(s.rank)
  {
    ViewIs(n, s.d);
  }

  lemma FoundBranch(n1: seq<NFA>, n2: seq<NFA>, n3: seq<NFA>, current: Addr, s: Scene,
                    bs: seq<Addr>, b: Addr, path: set<Addr>)
    requires Found(n1, n2, current, Branches(s.g, bs, path), s.accept)
    requires Found(n2, n3, current, Closure(s.g, b, path), s.accept)
    ensures Found(n1, n3, current, Branches(s.g, bs + [b], path), s.accept)
  {
    hide *;
    FoundBoth(n1, n2, n3, current, Branches(s.g, bs, path), Closure(s.g, b, path), s.accept);
    NextBranch(s.g, bs, b, path);
  }

  lemma AtTree(n: seq<NFA>, s: Scene, v: Addr)
    requires Searchable(n, s) && v in s.d && v < |n| && n[v].value.TREE? && !n[v].visited
    ensures forall b :: b in Seen(n[v].value.branches) ==> b in s.d
    ensures Closure(s.g, v, OnPath(n, s.d)) == Branches(s.g, Seen(n[v].value.branches), OnPath(n, s.d) + {v})
  {
    ViewIs(n, s.d);
    var bs := Seen(n[v].value.branches);
    assert s.g[v] == Tree(bs);
    forall b | b in bs ensures b in s.d {
      assert b in Outs(s.g[v]);
    }
    ClosureAtTree(s.g, v, OnPath(n, s.d));
  }

  lemma NothingFound(n: seq<NFA>, current: Addr, s: Scene)
    requires current < |n| && Distinct(n[current].reachable)
    ensures Found(n, n, current, {}, s.accept)
  {
  }

  /** A node met again: a fork on the current path ends the search, a stop is listed once. */
  method VisitMarked(ctrl: NFACtrl, current: Addr, visiting: Addr, ghost s: Scene)
    requires Searchable(ctrl.nodes, s) && visiting in s.d && current < |ctrl.nodes|
    requires Distinct(ctrl.nodes[current].reachable) && ctrl.nodes[visiting].value != EPSILON
    requires ctrl.nodes[visiting].visited
    requires Entered(ctrl.nodes, current)
    modifies ctrl`nodes
    ensures Found(old(ctrl.nodes), ctrl.nodes, current, Closure(s.g, visiting, OnPath(old(ctrl.nodes), s.d)), s.accept)
    decreases |OffPath(ctrl.nodes, s.d)|, s.rank[visiting], 0
  {
    if ctrl.nodes[visiting].value.TREE? || ctrl.nodes[visiting].value == SPLIT {
      AtMarked(ctrl.nodes, s, visiting, current);
    } else {
      VisitStop(ctrl, current, visiting, s);
    }
  }

  lemma AtMarked(n: seq<NFA>, s: Scene, v: Addr, current: Addr)
    requires Searchable(n, s) && v in s.d && v < |n| && Forking(n[v].value) && n[v].visited
    requires current < |n| && Distinct(n[current].reachable)
    ensures Found(n, n, current, Closure(s.g, v, OnPath(n, s.d)), s.accept)
  {
    ClosureMarked(s.g, v, OnPath(n, s.d));
    NothingFound(n, current, s);
  }

  method VisitStop(ctrl: NFACtrl, current: Addr, visiting: Addr, ghost s: Scene)
    requires Searchable(ctrl.nodes, s) && visiting in s.d && current < |ctrl.nodes|
    requires Distinct(ctrl.nodes[current].reachable) && ctrl.nodes[visiting].value != EPSILON
    requires !Forking(ctrl.nodes[visiting].value)
    modifies ctrl`nodes
    ensures Found(old(ctrl.nodes), ctrl.nodes, current, Closure(s.g, visiting, OnPath(old(ctrl.nodes), s.d)), s.accept)
  {
    ghost var n := ctrl.nodes;
    AtStop(n, s, visiting);
    hide *;
    Append(ctrl, current, visiting);
    if ctrl.nodes[visiting].value == ACCEPTING {
      ctrl.nodes := ctrl.nodes[current := ctrl.nodes[current].(accepts := true)];
    }
    FoundStop(n, ctrl.nodes, current, visiting, s.accept);
  }

  lemma AtStop(n: seq<NFA>, s: Scene, v: Addr)
    requires Searchable(n, s) && v in s.d && v < |n| && n[v].value != EPSILON && !Forking(n[v].value)
    ensures Closure(s.g, v, OnPath(n, s.d)) == {v} && (n[v].value == ACCEPTING <==> v == s.accept)
  {
    ViewIs(n, s.d);
    assert v !in OnPath(n, s.d);
    ClosureAtStop(s.g, v, OnPath(n, s.d));
  }

  lemma FoundStop(n: seq<NFA>, m: seq<NFA>, current: Addr, v: Addr, accept: Addr)
    requires current < |n| && |m| == |n|
    requires m == n[current := n[current].(reachable := m[current].reachable,
                                           accepts := n[current].accepts || v == accept)]
    requires Distinct(m[current].reachable) && Elements(m[current].reachable) == Elements(n[current].reachable) + {v}
    ensures Found(n, m, current, {v}, accept)
  {
  }

  /** list_append unless list_search finds it */
  method Append(ctrl: NFACtrl, current: Addr, visiting: Addr)
    requires current < |ctrl.nodes| && Distinct(ctrl.nodes[current].reachable)
    modifies ctrl`nodes
    ensures |ctrl.nodes| == |old(ctrl.nodes)|
    ensures ctrl.nodes
      == old(ctrl.nodes)[current := old(ctrl.nodes)[current].(reachable := ctrl.nodes[current].reachable)]
    ensures Distinct(ctrl.nodes[current].reachable)
    ensures Elements(ctrl.nodes[current].reachable) == Elements(old(ctrl.nodes)[current].reachable) + {visiting}
  {
    var list := ctrl.nodes[current].reachable;
    if visiting !in list {
      assert Elements(list + [visiting]) == Elements(list) + {visiting};
      ctrl.nodes := ctrl.nodes[current := ctrl.nodes[current].(reachable := list + [visiting])];
    }
  }

  // ---------------------------------------------------------------- the worklist

  /** The list of a holds, without repeats, exactly the nodes in c. */
  ghost predicate Listed(n: seq<NFA>, a: Addr, c: set<Addr>, accept: Addr) {
    a < |n| && Distinct(n[a].reachable) && Elements(n[a].reachable) == c && (n[a].accepts <==> accept in c)
  }

  /** Where the search for a node's list begins: at the start node itself, else behind the node. */
  function From(n: seq<NFA>, a: Addr, start: Addr): Addr
    requires a < |n|
  {
    if a == start then start else n[a].out2
  }

  /** The node a has its list; behind the start node there are only consuming nodes, marked done. */
  ghost predicate Row(n: seq<NFA>, s: Scene, start: Addr, a: Addr) {
    && a in s.d && a < |n| && Listed(n, a, Closure(s.g, From(n, a, start), {}), s.accept)
    && (a != start ==> Consuming(n[a].value) && n[a].done)
  }

  /** No marks are left, and nodes outside l have no list. */
  ghost predicate Tidy(n: seq<NFA>, l: seq<Addr>, accept: Addr) {
    && (forall a :: 0 <= a < |n| ==> !n[a].visited)
    && (forall a :: 0 <= a < |n| && a !in l ==> n[a].reachable == [] && !n[a].accepts)
    && (forall a :: 0 <= a < |n| && n[a].done ==> a == accept || a in l)
  }

  /** The nodes in l have their lists, the others have none yet. */
  ghost predicate Worked(n: seq<NFA>, s: Scene, start: Addr, l: seq<Addr>) {
    && Searchable(n, s) && Distinct(l) && l != [] && l[0] == start && start < |n|
    && start != s.accept && !Consuming(n[start].value)
    && (forall k :: 0 <= k < |l| ==> Row(n, s, start, l[k])) && Tidy(n, l, s.accept)
  }

  /** Everything listed for the first i nodes of l has been taken up. */
  ghost predicate TakenUp(n: seq<NFA>, l: seq<Addr>, i: nat) {
    i <= |l| && forall k :: 0 <= k < i ==> l[k] < |n| && AllDone(n, n[l[k]].reachable, |n[l[k]].reachable|)
  }

  /** The first i nodes of the list r have been taken up. */
  ghost predicate AllDone(n: seq<NFA>, r: seq<Addr>, i: nat) {
    i <= |r| && forall j :: 0 <= j < i ==> r[j] < |n| && n[r[j]].done
  }

  /** Only marks and results differ. */
  ghost predicate SameGraph(n0: seq<NFA>, n1: seq<NFA>) {
    && |n1| == |n0|
    && forall a :: 0 <= a < |n0| ==>
         n1[a] == n0[a].(done := n1[a].done, visited := n1[a].visited, accepts := n1[a].accepts,
                         reachable := n1[a].reachable)
  }

  lemma SearchedSame(n0: seq<NFA>, n1: seq<NFA>, current: Addr)
    requires Searched(n0, n1, current)
    ensures SameGraph(n0, n1)
  {
  }

  lemma SameView(n0: seq<NFA>, n1: seq<NFA>, d: set<Addr>)
    requires SameGraph(n0, n1) && forall a :: a in d ==> a < |n0|
    ensures View(n1, d) == View(n0, d)
  {
  }

  /** Before the loop: only the start node has its list. */
  lemma StartWorked(n0: seq<NFA>, n1: seq<NFA>, s: Scene, start: Addr)
    requires Searchable(n0, s) && Clean(n0) && start in s.d && start < |n0| && !Consuming(n0[start].value)
    requires start != s.accept && Found(n0, n1, start, Closure(s.g, start, {}), s.accept)
    ensures Worked(n1, s, start, [start]) && SameGraph(n0, n1)
  {
    SearchedSame(n0, n1, start);
    SameView(n0, n1, s.d);
    hide View;
    hide Closure;
    hide Closed;
    hide Ranked;
    assert Tidy(n1, [start], s.accept);
    hide Tidy;
    assert Row(n1, s, start, start);
  }

  lemma NoPath(n: seq<NFA>, d: set<Addr>)
    requires forall a :: 0 <= a < |n| && n[a].visited ==> !Forking(n[a].value)
    ensures OnPath(n, d) == {}
  {
  }

  function SetDone(nodes: seq<NFA>, a: Addr): seq<NFA>
    requires a < |nodes|
  {
    nodes[a := nodes[a].(done := true)]
  }

  /** What taking up a node keeps: the graph, earlier lists and done marks. */
  ghost predicate Preserved(n0: seq<NFA>, n1: seq<NFA>, l: seq<Addr>) {
    && SameGraph(n0, n1)
    && (forall a :: 0 <= a < |n0| && n0[a].done ==> n1[a].done)
    && (forall k :: 0 <= k < |l| && l[k] < |n0| ==> n1[l[k]].reachable == n0[l[k]].reachable)
  }

  lemma PreservedBoth(n0: seq<NFA>, n1: seq<NFA>, n2: seq<NFA>, l: seq<Addr>)
    requires Preserved(n0, n1, l) && Preserved(n1, n2, l)
    ensures Preserved(n0, n2, l)
  {
  }

  /** A node that may be taken up: one that the recognizer can stand on. */
  ghost predicate Standing(n: seq<NFA>, s: Scene, v: Addr) {
    v in s.d && v < |n| && (v == s.accept || Consuming(n[v].value)) && (n[v].value == ACCEPTING <==> v == s.accept)
  }

  /** The body of the inner loop. */
  method TakeUp(ctrl: NFACtrl, current: Addr, visiting: Addr, list: seq<Addr>, ghost start: Addr, ghost s: Scene)
      returns (l: seq<Addr>)
    requires Worked(ctrl.nodes, s, start, list) && current in list && Standing(ctrl.nodes, s, visiting)
    modifies ctrl`nodes
    ensures Worked(ctrl.nodes, s, start, l) && list <= l && Preserved(old(ctrl.nodes), ctrl.nodes, list)
    ensures visiting < |ctrl.nodes| && ctrl.nodes[visiting].done
  {
    l := list;
    ghost var n0 := ctrl.nodes;
    PreservedItself(n0, list);
    if ctrl.nodes[visiting].done {
      return;
    }
    NotListed(n0, s, start, list, visiting);
    MarkedDone(n0, s, start, list, visiting);
    ctrl.nodes := SetDone(ctrl.nodes, visiting);
    if current != visiting && ctrl.nodes[visiting].value != ACCEPTING {
      BeforeSearch(n0, s, start, list, visiting);
      ctrl.nodes := SetVisited(ctrl.nodes, visiting, true);
      ghost var n1 := ctrl.nodes;
      CollectHelper(ctrl, visiting, ctrl.nodes[visiting].out2, s);
      AfterSearch(n0, n1, ctrl.nodes, s, start, list, visiting);
      ctrl.nodes := SetVisited(ctrl.nodes, visiting, false);
      l := list + [visiting];
    }
  }

  lemma PreservedItself(n: seq<NFA>, l: seq<Addr>)
    ensures Preserved(n, n, l)
  {
  }

  lemma RowSame(n0: seq<NFA>, n1: seq<NFA>, s: Scene, start: Addr, a: Addr)
    requires Row(n0, s, start, a) && a < |n1|
    requires n1[a] == n0[a].(done := n1[a].done, visited := n1[a].visited) && (n0[a].done ==> n1[a].done)
    ensures Row(n1, s, start, a)
  {
  }

  /** A node that is not done is not in the list. */
  lemma NotListed(n: seq<NFA>, s: Scene, start: Addr, l: seq<Addr>, v: Addr)
    requires Worked(n, s, start, l) && Standing(n, s, v) && !n[v].done
    ensures v !in l
  {
    forall k | 0 <= k < |l| ensures l[k] != v {
      assert Row(n, s, start, l[k]);
    }
  }

  lemma MarkedDone(n: seq<NFA>, s: Scene, start: Addr, l: seq<Addr>, v: Addr)
    requires Worked(n, s, start, l) && Standing(n, s, v) && v !in l
    ensures Preserved(n, SetDone(n, v), l)
    ensures v == s.accept ==> Worked(SetDone(n, v), s, start, l)
  {
    var m := SetDone(n, v);
    assert SameGraph(n, m) && m[v].done && forall a :: 0 <= a < |n| && a != v ==> m[a] == n[a];
    PreservedBut(n, m, l, v);
    if v == s.accept {
      assert m[v] == n[v].(done := true);
      hide SetDone;
      ExitDone(n, m, s, start, l);
    }
  }

  lemma ExitDone(n: seq<NFA>, m: seq<NFA>, s: Scene, start: Addr, l: seq<Addr>)
    requires Worked(n, s, start, l) && SameGraph(n, m) && s.accept < |n| && s.accept !in l
    requires forall a :: 0 <= a < |n| && a != s.accept ==> m[a] == n[a]
    requires m[s.accept] == n[s.accept].(done := true)
    ensures Worked(m, s, start, l)
  {
    hide Searchable;
    SearchableSame(n, m, s);
    hide Closure;
    forall k | 0 <= k < |l| ensures Row(m, s, start, l[k]) {
      RowSame(n, m, s, start, l[k]);
    }
    hide Row;
    hide SameGraph;
    assert Tidy(m, l, s.accept);
  }

  lemma BeforeSearch(n: seq<NFA>, s: Scene, start: Addr, l: seq<Addr>, v: Addr)
    requires Worked(n, s, start, l) && Standing(n, s, v) && v != s.accept && v !in l
    ensures var m := SetVisited(SetDone(n, v), v, true);
            Searchable(m, s) && m[v].out2 in s.d && Entered(m, v) && Distinct(m[v].reachable) && OnPath(m, s.d) == {}
  {
    var m := SetVisited(SetDone(n, v), v, true);
    SameView(n, m, s.d);
    ViewIs(n, s.d);
    NoPath(m, s.d);
    assert n[v].out2 in Outs(s.g[v]);
    hide View;
  }

  lemma AfterSearch(n0: seq<NFA>, n1: seq<NFA>, n2: seq<NFA>, s: Scene, start: Addr, l: seq<Addr>, v: Addr)
    requires Worked(n0, s, start, l) && Standing(n0, s, v) && v != s.accept && v !in l
    requires n1 == SetVisited(SetDone(n0, v), v, true) && Found(n1, n2, v, Closure(s.g, n1[v].out2, {}), s.accept)
    ensures v < |n2|
    ensures var n3 := SetVisited(n2, v, false); Worked(n3, s, start, l + [v]) && Preserved(n0, n3, l) && n3[v].done
  {
    var n3 := SetVisited(n2, v, false);
    SearchResult(n0, n1, n2, s, v);
    hide SetVisited;
    hide SetDone;
    hide Found;
    hide Closure;
    hide Searchable;
    SearchableSame(n0, n3, s);
    RowsMore(n0, n3, s, start, l, v);
    ListMore(n0, n3, l, v, s.accept);
    PreservedBut(n0, n3, l, v);
    hide Row;
    hide Tidy;
    hide SameGraph;
    hide Distinct;
    hide Preserved;
  }

  lemma PreservedBut(n0: seq<NFA>, n1: seq<NFA>, l: seq<Addr>, v: Addr)
    requires SameGraph(n0, n1) && v !in l && v < |n1| && n1[v].done
    requires forall a :: 0 <= a < |n0| && a != v ==> n1[a] == n0[a]
    ensures Preserved(n0, n1, l)
  {
  }

  lemma SearchableSame(n0: seq<NFA>, n1: seq<NFA>, s: Scene)
    requires SameGraph(n0, n1) && Searchable(n0, s)
    ensures Searchable(n1, s)
  {
    SameView(n0, n1, s.d);
    hide View;
    hide Closed;
    hide Ranked;
  }

  lemma RowsMore(n0: seq<NFA>, n1: seq<NFA>, s: Scene, start: Addr, l: seq<Addr>, v: Addr)
    requires v in s.d && v < |n0| && v != start && |n1| == |n0| && Consuming(n0[v].value)
    requires forall k :: 0 <= k < |l| ==> l[k] != v && Row(n0, s, start, l[k])
    requires forall a :: 0 <= a < |n0| && a != v ==> n1[a] == n0[a]
    requires n1[v] == n0[v].(done := true, reachable := n1[v].reachable, accepts := n1[v].accepts)
    requires Listed(n1, v, Closure(s.g, n0[v].out2, {}), s.accept)
    ensures forall k :: 0 <= k < |l + [v]| ==> Row(n1, s, start, (l + [v])[k])
  {
    hide Closure;
    hide Listed;
    forall k | 0 <= k < |l| ensures Row(n1, s, start, l[k]) {
      RowSame(n0, n1, s, start, l[k]);
    }
    assert Row(n1, s, start, v);
  }

  lemma ListMore(n0: seq<NFA>, n1: seq<NFA>, l: seq<Addr>, v: Addr, accept: Addr)
    requires Tidy(n0, l, accept) && Distinct(l) && v !in l && |n1| == |n0| && v < |n0| && !n1[v].visited
    requires forall a :: 0 <= a < |n0| && a != v ==> n1[a] == n0[a]
    ensures Tidy(n1, l + [v], accept) && Distinct(l + [v])
  {
    assert forall a :: a in l + [v] <==> a in l || a == v;
    assert forall k :: 0 <= k < |l| ==> (l + [v])[k] == l[k] && l[k] in l;
  }

  /** Node by node, what the search from v did. */
  lemma SearchResult(n0: seq<NFA>, n1: seq<NFA>, n2: seq<NFA>, s: Scene, v: Addr)
    requires v < |n0| && n1 == SetVisited(SetDone(n0, v), v, true) && Consuming(n0[v].value)
    requires Found(n1, n2, v, Closure(s.g, n1[v].out2, {}), s.accept)
    requires forall a :: 0 <= a < |n0| ==> !n0[a].visited
    requires n0[v].reachable == [] && !n0[v].accepts
    ensures |n2| == |n0| && SameGraph(n0, SetVisited(n2, v, false))
    ensures forall a :: 0 <= a < |n0| && a != v ==> SetVisited(n2, v, false)[a] == n0[a]
    ensures var x := SetVisited(n2, v, false)[v];
            && x == n0[v].(done := true, reachable := x.reachable, accepts := x.accepts)
            && Distinct(x.reachable) && Elements(x.reachable) == Closure(s.g, n0[v].out2, {})
            && (x.accepts <==> s.accept in Closure(s.g, n0[v].out2, {}))
  {
  }

  lemma StopStands(n: seq<NFA>, s: Scene, x: Addr)
    requires Searchable(n, s) && Stops(s.g, x)
    ensures Standing(n, s, x)
  {
    ViewIs(n, s.d);
    hide View;
    hide Closed;
    hide Ranked;
  }

  lemma ListedStand(n: seq<NFA>, s: Scene, start: Addr, a: Addr)
    requires Searchable(n, s) && Row(n, s, start, a)
    ensures forall j :: 0 <= j < |n[a].reachable| ==> Standing(n, s, n[a].reachable[j])
  {
    ClosureStops(s.g, From(n, a, start), {});
    hide Closure;
    hide Searchable;
    hide Standing;
    hide Stops;
    forall j | 0 <= j < |n[a].reachable| ensures Standing(n, s, n[a].reachable[j]) {
      var x := n[a].reachable[j];
      assert x in Elements(n[a].reachable);
      StopStands(n, s, x);
    }
  }

  lemma InList(n: seq<NFA>, s: Scene, start: Addr, l: seq<Addr>, a: Addr)
    requires Worked(n, s, start, l) && a in l && a < |n|
    ensures forall j :: 0 <= j < |n[a].reachable| ==> Standing(n, s, n[a].reachable[j])
    ensures AllDone(n, n[a].reachable, 0)
  {
    ListedStand(n, s, start, a);
  }

  lemma StandingNow(n0: seq<NFA>, n1: seq<NFA>, s: Scene, l: seq<Addr>, v: Addr)
    requires Standing(n0, s, v) && Preserved(n0, n1, l)
    ensures Standing(n1, s, v)
  {
  }

  lemma OneMoreDone(n0: seq<NFA>, n1: seq<NFA>, n2: seq<NFA>, l0: seq<Addr>, l1: seq<Addr>, current: Addr,
                    r: seq<Addr>, j: nat)
    requires Preserved(n0, n1, l0) && Preserved(n1, n2, l1) && l0 <= l1 && current in l0 && current < |n1|
    requires n1[current].reachable == r && j < |r| && AllDone(n1, r, j) && r[j] < |n2| && n2[r[j]].done
    ensures Preserved(n0, n2, l0) && AllDone(n2, r, j + 1)
    ensures current < |n2| && n2[current].reachable == r
  {
    assert current in l1;
    assert Preserved(n1, n2, l0) by {
      assert forall k :: 0 <= k < |l0| ==> l1[k] == l0[k];
    }
    PreservedBoth(n0, n1, n2, l0);
  }

  /** The inner loop: takes up everything listed for current. */
  method TakeUpAll(ctrl: NFACtrl, current: Addr, list: seq<Addr>, ghost start: Addr, ghost s: Scene)
      returns (l: seq<Addr>)
    requires Worked(ctrl.nodes, s, start, list) && current in list && current < |ctrl.nodes|
    modifies ctrl`nodes
    ensures Worked(ctrl.nodes, s, start, l) && list <= l && Preserved(old(ctrl.nodes), ctrl.nodes, list)
    ensures current < |ctrl.nodes|
    ensures AllDone(ctrl.nodes, ctrl.nodes[current].reachable, |ctrl.nodes[current].reachable|)
  {
    l := list;
    ghost var n0, r := ctrl.nodes, ctrl.nodes[current].reachable;
    PreservedItself(n0, list);
    InList(n0, s, start, list, current);
    hide *;
    var j := 0;
    while j < |ctrl.nodes[current].reachable|
      invariant 0 <= j <= |r| && current < |ctrl.nodes| && ctrl.nodes[current].reachable == r
      invariant Worked(ctrl.nodes, s, start, l) && list <= l && Preserved(n0, ctrl.nodes, list)
      invariant AllDone(ctrl.nodes, r, j)
    {
      ghost var n1, l1 := ctrl.nodes, l;
      StandingNow(n0, n1, s, list, r[j]);
      l := TakeUp(ctrl, current, ctrl.nodes[current].reachable[j], l, start, s);
      OneMoreDone(n0, n1, ctrl.nodes, list, l1, current, r, j);
      j := j + 1;
    }
  }

  /** What compilation leaves: the start node and every node in w but the exit list, without
      repeats, exactly the stops that come next, and all of those are in w. */
  ghost predicate Compiled(n: seq<NFA>, s: Scene, start: Addr, w: set<Addr>) {
    && Searchable(n, s) && start in s.d && start < |n| && w <= s.d && s.accept in w
    && Listed(n, start, Closure(s.g, start, {}), s.accept) && Closure(s.g, start, {}) <= w
    && forall a :: a in w ==>
         a == s.accept
         || (a < |n| && Consuming(n[a].value) && Listed(n, a, Closure(s.g, n[a].out2, {}), s.accept)
             && Closure(s.g, n[a].out2, {}) <= w)
  }

  /** collect_adjacencies. The bound on the number of lists is never reached. */
  method CollectAdjacencies(ctrl: NFACtrl, start: Addr, total: nat, ghost s: Scene) returns (ghost w: set<Addr>)
    requires Searchable(ctrl.nodes, s) && Clean(ctrl.nodes) && Numbered(ctrl.nodes, s.d, total)
    requires start in s.d && start < |ctrl.nodes| && start != s.accept && !Consuming(ctrl.nodes[start].value)
    modifies ctrl`nodes
    ensures Compiled(ctrl.nodes, s, start, w) && SameGraph(old(ctrl.nodes), ctrl.nodes)
  {
    ghost var n0 := ctrl.nodes;
    CleanStart(n0, s, start);
    hide *;
    CollectHelper(ctrl, start, start, s);
    StartWorked(n0, ctrl.nodes, s, start);
    var l := [start];
    var i := 0;
    while i < |l|
      invariant 0 <= i <= |l| && Worked(ctrl.nodes, s, start, l) && SameGraph(n0, ctrl.nodes)
      invariant TakenUp(ctrl.nodes, l, i)
      decreases total + 1 - i
    {
      WithinTotal(n0, ctrl.nodes, s, start, l, total);
      if i > total {
        break;
      }
      ghost var n1, l1 := ctrl.nodes, l;
      l := TakeUpAll(ctrl, l[i], l, start, s);
      NextTaken(n0, n1, ctrl.nodes, s, start, l1, l, i);
      i := i + 1;
    }
    w := Elements(l) - {start} + {s.accept};
    AllTaken(ctrl.nodes, s, start, l);
  }

  lemma CleanStart(n: seq<NFA>, s: Scene, start: Addr)
    requires Searchable(n, s) && Clean(n) && start in s.d && start < |n|
    ensures OnPath(n, s.d) == {} && Distinct(n[start].reachable)
    ensures forall m: seq<NFA>, l: seq<Addr> :: TakenUp(m, l, 0)
  {
  }

  lemma {:induction false} FewNumbers(r: seq<nat>, n: nat)
    requires (forall i, j :: 0 <= i < j < |r| ==> r[i] != r[j]) && forall i :: 0 <= i < |r| ==> r[i] < n
    ensures |r| <= n
  {
    if r != [] {
      assert r[0] < n;
      if i :| 0 <= i < |r| && r[i] == n - 1 {
        FewNumbers(r[..i] + r[i + 1..], n - 1);
      } else {
        FewNumbers(r, n - 1);
      }
    }
  }

  /** The numbers of the listed nodes bound the list. */
  lemma WithinTotal(n0: seq<NFA>, n: seq<NFA>, s: Scene, start: Addr, l: seq<Addr>, total: nat)
    requires Numbered(n0, s.d, total) && SameGraph(n0, n) && Worked(n, s, start, l)
    ensures |l| <= total + 1
  {
    ListConsumes(n0, n, s, start, l);
    hide Worked;
    hide SameGraph;
    assert |l| > 0;
    FewListed(n0, s.d, l[1..], total);
  }

  lemma ListConsumes(n0: seq<NFA>, n: seq<NFA>, s: Scene, start: Addr, l: seq<Addr>)
    requires SameGraph(n0, n) && Worked(n, s, start, l)
    ensures l != [] && Distinct(l[1..])
    ensures forall k :: 0 <= k < |l[1..]| ==> l[1..][k] in s.d && l[1..][k] < |n0| && Consuming(n0[l[1..][k]].value)
  {
    hide Searchable;
    hide Tidy;
    hide Listed;
    forall k | 0 <= k < |l[1..]| ensures l[1..][k] in s.d && l[1..][k] < |n0| && Consuming(n0[l[1..][k]].value) {
      assert Row(n, s, start, l[k + 1]);
    }
  }

  lemma FewListed(n: seq<NFA>, d: set<Addr>, l: seq<Addr>, total: nat)
    requires Numbered(n, d, total) && Distinct(l)
    requires forall k :: 0 <= k < |l| ==> l[k] in d && l[k] < |n| && Consuming(n[l[k]].value)
    ensures |l| <= total
  {
    var ids := seq(|l|, k requires 0 <= k < |l| => n[l[k]].id);
    FewNumbers(ids, total);
  }

  lemma NextTaken(n0: seq<NFA>, n1: seq<NFA>, n2: seq<NFA>, s: Scene, start: Addr, l1: seq<Addr>, l2: seq<Addr>, i: nat)
    requires SameGraph(n0, n1) && Worked(n1, s, start, l1) && TakenUp(n1, l1, i) && i < |l1|
    requires Preserved(n1, n2, l1) && l1 <= l2 && Worked(n2, s, start, l2)
    requires l1[i] < |n2| && AllDone(n2, n2[l1[i]].reachable, |n2[l1[i]].reachable|)
    ensures SameGraph(n0, n2) && TakenUp(n2, l2, i + 1) && i + 1 <= |l2|
  {
    hide Worked;
    hide SameGraph;
    SameGraphBoth(n0, n1, n2);
    hide Preserved;
    assert i + 1 <= |l2| && forall k :: 0 <= k <= i ==> l2[k] == l1[k];
    hide AllDone;
    forall k | 0 <= k < i + 1 ensures l2[k] < |n2| && AllDone(n2, n2[l2[k]].reachable, |n2[l2[k]].reachable|) {
      if k < i {
        assert l2[k] == l1[k];
        StillDone(n1, n2, l1, k);
      } else {
        assert k == i && l2[k] == l1[i];
      }
    }
  }

  lemma SameGraphBoth(n0: seq<NFA>, n1: seq<NFA>, n2: seq<NFA>)
    requires SameGraph(n0, n1) && SameGraph(n1, n2)
    ensures SameGraph(n0, n2)
  {
  }

  lemma StillDone(n1: seq<NFA>, n2: seq<NFA>, l: seq<Addr>, k: nat)
    requires Preserved(n1, n2, l) && k < |l| && l[k] < |n1| && AllDone(n1, n1[l[k]].reachable, |n1[l[k]].reachable|)
    ensures l[k] < |n2| && AllDone(n2, n2[l[k]].reachable, |n2[l[k]].reachable|)
  {
    assert n2[l[k]].reachable == n1[l[k]].reachable;
  }

  lemma AllTaken(n: seq<NFA>, s: Scene, start: Addr, l: seq<Addr>)
    requires Worked(n, s, start, l) && TakenUp(n, l, |l|)
    ensures Compiled(n, s, start, Elements(l) - {start} + {s.accept})
  {
    var w := Elements(l) - {start} + {s.accept};
    forall a | a in Elements(l) ensures InProgram(n, s, start, w, a) {
      ClosureIn(n, s, start, l, a);
    }
    assert start in Elements(l);
    hide Closure;
    hide Listed;
    hide Tidy;
    hide TakenUp;
    hide Distinct;
    hide Row;
    assert Searchable(n, s) && s.accept in s.d;
    hide Searchable;
  }

  /** The node a is listed in full, and its list stays in w. */
  ghost predicate InProgram(n: seq<NFA>, s: Scene, start: Addr, w: set<Addr>, a: Addr) {
    && a in s.d && a < |n| && (a != start ==> Consuming(n[a].value))
    && var c := Closure(s.g, From(n, a, start), {}); Listed(n, a, c, s.accept) && c <= w
  }

  lemma ClosureIn(n: seq<NFA>, s: Scene, start: Addr, l: seq<Addr>, a: Addr)
    requires Worked(n, s, start, l) && TakenUp(n, l, |l|) && a in Elements(l)
    ensures InProgram(n, s, start, Elements(l) - {start} + {s.accept}, a)
  {
    var k :| 0 <= k < |l| && l[k] == a;
    assert Row(n, s, start, l[k]);
    ListedStand(n, s, start, a);
    var r := n[a].reachable;
    hide Closure;
    hide Searchable;
    forall x | x in Elements(r) ensures x == s.accept || (x in l && x != start) {
      var j :| 0 <= j < |r| && r[j] == x;
      assert Standing(n, s, r[j]) && n[r[j]].done;
    }
  }
}
