/**
 * The committee tree shown in the sidebar widget.
 *
 * `get_committee_tree` (and the older builders of the front page and of the
 * first app) turn the committee rows into an index — one node per committee,
 * the parent map, the list of roots and one children list per parent, in
 * row order — and then into nested nodes whose sibling lists are sorted
 * with branches (non-empty children) before leaves, then by label.
 */
module CommitteeTree {
  import opened Wrappers
  import opened Hierarchy
  import opened Sorting
  import opened Text

  /** A widget node: label (the committee name), value (the committee id), CSS class (type name) and children. */
  datatype Node = Node(name: string, value: int, className: Option<string>, children: seq<Node>)

  /**
   * Which parentless rows become roots: all of them (data layer, front page),
   * or only the one with this name (the first app's 'HOVEDUDVALG').
   */
  datatype RootRule = AnyParentless | OnlyNamed(name: string)

  predicate DistinctIds(rows: seq<Row>) {
    forall i, j | 0 <= i < j < |rows| :: rows[i].id != rows[j].id
  }

  predicate IsRoot(r: Row, rule: RootRule) {
    r.parent.None? && (rule.AnyParentless? || r.name == rule.name)
  }

  /** The ids of the root rows, in row order. */
  function RootIds(rows: seq<Row>, rule: RootRule): seq<int>
  {
    if rows == [] then []
    else RootIds(rows[..|rows| - 1], rule) + (if IsRoot(rows[|rows| - 1], rule) then [rows[|rows| - 1].id] else [])
  }

  /** The ids of the rows whose parent is `p`, in row order. */
  function ChildIds(rows: seq<Row>, p: int): seq<int>
  {
    if rows == [] then []
    else ChildIds(rows[..|rows| - 1], p) + (if rows[|rows| - 1].parent == Some(p) then [rows[|rows| - 1].id] else [])
  }

  /** A parent's children list; a committee without children has none. */
  function ChildrenOf(children: map<int, seq<int>>, p: int): seq<int> {
    if p in children then children[p] else []
  }

  /** The node a row becomes before it gets children. */
  function NodeOf(r: Row): Node {
    Node(r.name, r.id, r.kind, [])
  }

  /** The ids of the first `n` rows. */
  function IdsUpTo(rows: seq<Row>, n: nat): set<int>
    requires n <= |rows|
  {
    if n == 0 then {} else IdsUpTo(rows, n - 1) + {rows[n - 1].id}
  }

  lemma {:induction false} IdsUpToAll(rows: seq<Row>, n: nat)
    requires n <= |rows|
    ensures IdsUpTo(rows, n) == Ids(rows[..n])
  {
    if n > 0 {
      IdsUpToAll(rows, n - 1);
      assert rows[..n] == rows[..n - 1] + [rows[n - 1]];
    }
  }

  /** The first loop: one node and one `parent_map` entry per committee. */
  method IndexRows(rows: seq<Row>) returns (nodeMap: map<int, Node>, parentMap: ParentMap)
    requires DistinctIds(rows)
    ensures nodeMap.Keys == Ids(rows) && parentMap.Keys == Ids(rows)
    ensures forall i | 0 <= i < |rows| :: nodeMap[rows[i].id] == NodeOf(rows[i]) && parentMap[rows[i].id] == rows[i].parent
  {
    nodeMap, parentMap := map[], map[];
    var i := 0;
    while i < |rows|
      invariant 0 <= i <= |rows|
      invariant nodeMap.Keys == IdsUpTo(rows, i) && parentMap.Keys == IdsUpTo(rows, i)
      invariant forall j | 0 <= j < i :: rows[j].id in nodeMap && rows[j].id in parentMap
      invariant forall j | 0 <= j < i :: nodeMap[rows[j].id] == NodeOf(rows[j]) && parentMap[rows[j].id] == rows[j].parent
    {
      nodeMap := nodeMap[rows[i].id := NodeOf(rows[i])];
      parentMap := parentMap[rows[i].id := rows[i].parent];
      i := i + 1;
    }
    IdsUpToAll(rows, |rows|);
    assert rows[..|rows|] == rows;
  }

  /**
   * The second loop: each committee is appended to the roots or to its
   * parent's children list, and dropped when its parent is not `known`.
   */
  method LinkRows(rows: seq<Row>, rule: RootRule, known: set<int>) returns (roots: seq<int>, children: map<int, seq<int>>)
    ensures roots == RootIds(rows, rule)
    ensures forall p :: ChildrenOf(children, p) == if p in known then ChildIds(rows, p) else []
    ensures forall p | p in children :: p in known && children[p] != []
  {
    roots, children := [], map[];
    var i := 0;
    while i < |rows|
      invariant 0 <= i <= |rows|
      invariant roots == RootIds(rows[..i], rule)
      invariant forall p :: ChildrenOf(children, p) == if p in known then ChildIds(rows[..i], p) else []
      invariant forall p | p in children :: p in known && children[p] != []
    {
      var r := rows[i];
      PrefixStep(rows, rule, i);
      LinkStep(rows, i, known, children);
      if r.parent.None? && (rule.AnyParentless? || r.name == rule.name) {
        roots := roots + [r.id];
      } else if r.parent.Some? && r.parent.value in known {
        children := Attach(children, r, known);
      }
      i := i + 1;
    }
    assert rows[..i] == rows;
  }

  /** Appends `r` to its parent's list when the parent is `known`. */
  function Attach(children: map<int, seq<int>>, r: Row, known: set<int>): map<int, seq<int>> {
    if r.parent.Some? && r.parent.value in known then children[r.parent.value := ChildrenOf(children, r.parent.value) + [r.id]]
    else children
  }

  /** One row of the linking loop keeps the children map in step with the rows seen so far. */
  lemma LinkStep(rows: seq<Row>, i: int, known: set<int>, before: map<int, seq<int>>)
    requires 0 <= i < |rows|
    requires forall p :: ChildrenOf(before, p) == if p in known then ChildIds(rows[..i], p) else []
    requires forall p | p in before :: p in known && before[p] != []
    ensures var after := Attach(before, rows[i], known);
      (forall p :: ChildrenOf(after, p) == if p in known then ChildIds(rows[..i + 1], p) else []) &&
      (forall p | p in after :: p in known && after[p] != [])
    ensures rows[i].parent.None? ==> forall p :: ChildIds(rows[..i + 1], p) == ChildIds(rows[..i], p)
  {
    var after := Attach(before, rows[i], known);
    forall p ensures ChildrenOf(after, p) == if p in known then ChildIds(rows[..i + 1], p) else [] {
      PrefixChildStep(rows, p, i);
    }
    forall p ensures rows[i].parent.None? ==> ChildIds(rows[..i + 1], p) == ChildIds(rows[..i], p) {
      PrefixChildStep(rows, p, i);
    }
  }

  lemma PrefixStep(rows: seq<Row>, rule: RootRule, i: int)
    requires 0 <= i < |rows|
    ensures RootIds(rows[..i + 1], rule) == RootIds(rows[..i], rule) + (if IsRoot(rows[i], rule) then [rows[i].id] else [])
  {
    assert rows[..i + 1][..i] == rows[..i];
  }

  lemma PrefixChildStep(rows: seq<Row>, p: int, i: int)
    requires 0 <= i < |rows|
    ensures ChildIds(rows[..i + 1], p) == ChildIds(rows[..i], p) + (if rows[i].parent == Some(p) then [rows[i].id] else [])
  {
    assert rows[..i + 1][..i] == rows[..i];
  }

  /** The children lists the rows describe: one per committee that has children. */
  function ChildrenMapOf(rows: seq<Row>): map<int, seq<int>> {
    map p | p in Ids(rows) && ChildIds(rows, p) != [] :: ChildIds(rows, p)
  }

  /** Both loops of the builders. */
  method BuildIndex(rows: seq<Row>, rule: RootRule)
    returns (nodeMap: map<int, Node>, parentMap: ParentMap, roots: seq<int>, children: map<int, seq<int>>)
    requires DistinctIds(rows)
    ensures nodeMap.Keys == Ids(rows) && parentMap.Keys == Ids(rows)
    ensures forall i | 0 <= i < |rows| :: nodeMap[rows[i].id] == NodeOf(rows[i]) && parentMap[rows[i].id] == rows[i].parent
    ensures roots == RootIds(rows, rule)
    ensures forall p :: ChildrenOf(children, p) == if p in Ids(rows) then ChildIds(rows, p) else []
    ensures children == ChildrenMapOf(rows)
  {
    nodeMap, parentMap := IndexRows(rows);
    roots, children := LinkRows(rows, rule, nodeMap.Keys);
    ChildrenMapOfIs(rows, children);
  }

  /** A children map with no empty lists is determined by its lists. */
  lemma ChildrenMapOfIs(rows: seq<Row>, children: map<int, seq<int>>)
    requires forall p :: ChildrenOf(children, p) == if p in Ids(rows) then ChildIds(rows, p) else []
    requires forall p | p in children :: children[p] != []
    ensures children == ChildrenMapOf(rows)
  {
    var want := ChildrenMapOf(rows);
    forall p | p in want
      ensures p in children && children[p] == want[p]
    {
      assert ChildrenOf(children, p) != [];
    }
    forall p | p in children
      ensures p in want
    {
      assert ChildrenOf(children, p) == children[p];
    }
  }

  lemma DistinctIdsPrefix(rows: seq<Row>)
    requires DistinctIds(rows) && rows != []
    ensures DistinctIds(rows[..|rows| - 1])
  {
    var front := rows[..|rows| - 1];
    forall a, b | 0 <= a < b < |front|
      ensures front[a].id != front[b].id
    {
      assert front[a] == rows[a] && front[b] == rows[b];
    }
  }

  lemma RootIdsStep(rows: seq<Row>, rule: RootRule)
    requires rows != []
    ensures var last := rows[|rows| - 1];
      multiset(RootIds(rows, rule)) == multiset(RootIds(rows[..|rows| - 1], rule)) + multiset(if IsRoot(last, rule) then [last.id] else [])
  {
  }

  lemma {:induction false} RootIdsAbsent(rows: seq<Row>, rule: RootRule, x: int)
    requires forall j | 0 <= j < |rows| :: rows[j].id != x
    ensures x !in RootIds(rows, rule)
  {
    if rows != [] {
      RootIdsAbsent(rows[..|rows| - 1], rule, x);
    }
  }

  /** A row's id is a root id exactly once when the row is a root, and otherwise not at all. */
  lemma {:induction false} RootIdsExactly(rows: seq<Row>, rule: RootRule, i: nat)
    requires DistinctIds(rows)
    requires i < |rows|
    ensures multiset(RootIds(rows, rule))[rows[i].id] == if IsRoot(rows[i], rule) then 1 else 0
  {
    var front := rows[..|rows| - 1];
    var last := rows[|rows| - 1];
    RootIdsStep(rows, rule);
    if i < |rows| - 1 {
      DistinctIdsPrefix(rows);
      RootIdsExactly(front, rule, i);
      assert front[i] == rows[i];
    } else {
      RootIdsAbsent(front, rule, last.id);
    }
  }

  lemma ChildIdsStep(rows: seq<Row>, p: int)
    requires rows != []
    ensures var last := rows[|rows| - 1];
      multiset(ChildIds(rows, p)) == multiset(ChildIds(rows[..|rows| - 1], p)) + multiset(if last.parent == Some(p) then [last.id] else [])
  {
  }

  lemma {:induction false} ChildIdsAbsent(rows: seq<Row>, p: int, x: int)
    requires forall j | 0 <= j < |rows| :: rows[j].id != x
    ensures x !in ChildIds(rows, p)
  {
    if rows != [] {
      ChildIdsAbsent(rows[..|rows| - 1], p, x);
    }
  }

  /**
   * A committee occurs in parent `p`'s list exactly once when `p` is its
   * parent, and not at all otherwise.
   */
  lemma {:induction false} ChildIdsExactly(rows: seq<Row>, p: int, i: nat)
    requires DistinctIds(rows)
    requires i < |rows|
    ensures multiset(ChildIds(rows, p))[rows[i].id] == if rows[i].parent == Some(p) then 1 else 0
  {
    var front := rows[..|rows| - 1];
    var last := rows[|rows| - 1];
    ChildIdsStep(rows, p);
    if i < |rows| - 1 {
      DistinctIdsPrefix(rows);
      ChildIdsExactly(front, p, i);
      assert front[i] == rows[i];
    } else {
      ChildIdsAbsent(front, p, last.id);
    }
  }

  /** A committee whose parent id names no committee is in no list: it is dropped. */
  lemma DanglingDropped(rows: seq<Row>, rule: RootRule, i: int)
    requires DistinctIds(rows)
    requires 0 <= i < |rows| && rows[i].parent.Some? && rows[i].parent.value !in Ids(rows)
    ensures rows[i].id !in RootIds(rows, rule)
    ensures forall p | p in Ids(rows) :: rows[i].id !in ChildIds(rows, p)
  {
    RootIdsExactly(rows, rule, i);
    forall p | p in Ids(rows)
      ensures rows[i].id !in ChildIds(rows, p)
    {
      ChildIdsExactly(rows, p, i);
    }
  }

  /**
   * With the first app's rule, a parentless committee with another name is
   * neither a root nor anybody's child.
   */
  lemma UnnamedTopDropped(rows: seq<Row>, name: string, i: int)
    requires DistinctIds(rows)
    requires 0 <= i < |rows| && rows[i].parent.None? && rows[i].name != name
    ensures rows[i].id !in RootIds(rows, OnlyNamed(name))
    ensures forall p :: rows[i].id !in ChildIds(rows, p)
  {
    RootIdsExactly(rows, OnlyNamed(name), i);
    forall p
      ensures rows[i].id !in ChildIds(rows, p)
    {
      ChildIdsExactly(rows, p, i);
    }
  }

  // ---------------------------------------------------------------------
  // Nested nodes

  /** Every id in the index has a node. */
  predicate IndexClosed(nodeMap: map<int, Node>, children: map<int, seq<int>>) {
    forall p, i | p in children && 0 <= i < |children[p]| :: children[p][i] in nodeMap
  }

  /**
   * The nested nodes below `ids`, as the shared dictionaries of the builders
   * present them, unfolded at most `fuel` levels deep.
   */
  function Tree(nodeMap: map<int, Node>, children: map<int, seq<int>>, ids: seq<int>, fuel: nat): (r: seq<Node>)
    requires IndexClosed(nodeMap, children)
    requires forall i | 0 <= i < |ids| :: ids[i] in nodeMap
    ensures |r| == |ids|
    ensures forall i | 0 <= i < |ids| :: r[i].value == nodeMap[ids[i]].value && r[i].name == nodeMap[ids[i]].name
    decreases fuel
  {
    seq(|ids|, i requires 0 <= i < |ids| =>
      nodeMap[ids[i]].(children := if fuel == 0 then [] else Tree(nodeMap, children, ChildrenOf(children, ids[i]), fuel - 1)))
  }

  /** Branches (non-empty children) rank before leaves. */
  function Rank(n: Node): int {
    if |n.children| > 0 then 0 else 1
  }

  /** The sort key `(0 if children else 1, label)` as an order on nodes. */
  predicate NodeLe(a: Node, b: Node) {
    Rank(a) < Rank(b) || (Rank(a) == Rank(b) && LexLe(a.name, b.name))
  }

  lemma NodeLeTotalPreorder()
    ensures TotalPreorder(NodeLe)
  {
    forall a: Node, b: Node
      ensures NodeLe(a, b) || NodeLe(b, a)
    {
      LexLeTotal(a.name, b.name);
    }
    forall a: Node, b: Node, c: Node | NodeLe(a, b) && NodeLe(b, c)
      ensures NodeLe(a, c)
    {
      if Rank(a) == Rank(b) == Rank(c) {
        LexLeTransitive(a.name, b.name, c.name);
      }
    }
  }

  /**
   * `sort_nodes`: each sibling list sorted by the key, and the same below
   * every node.
   */
  function SortTree(ns: seq<Node>): (r: seq<Node>)
    ensures |r| == |ns|
    decreases ns, 1
  {
    SortBy(SortChildren(ns), NodeLe)
  }

  /** Every node of the list with its children sorted. */
  function SortChildren(ns: seq<Node>): (r: seq<Node>)
    ensures |r| == |ns|
    ensures forall i | 0 <= i < |ns| :: r[i] == ns[i].(children := SortTree(ns[i].children))
    decreases ns, 0
  {
    if ns == [] then []
    else [ns[0].(children := SortTree(ns[0].children))] + SortChildren(ns[1..])
  }

  /** Sorted by the key at every depth. */
  predicate SortedDeep(ns: seq<Node>)
    decreases ns
  {
    SortedBy(ns, NodeLe) && forall i | 0 <= i < |ns| :: SortedDeep(ns[i].children)
  }

  lemma {:induction false} SortTreeSorted(ns: seq<Node>)
    ensures SortedDeep(SortTree(ns))
    decreases ns
  {
    NodeLeTotalPreorder();
    var cs := SortChildren(ns);
    forall i | 0 <= i < |ns|
      ensures SortedDeep(cs[i].children)
    {
      SortTreeSorted(ns[i].children);
    }
    SortBySorted(cs, NodeLe);
    var r := SortTree(ns);
    forall i | 0 <= i < |r|
      ensures SortedDeep(r[i].children)
    {
      assert r[i] in multiset(cs);
      var j :| 0 <= j < |cs| && cs[j] == r[i];
    }
  }

  /** Sorting a list that is sorted at every depth changes nothing. */
  lemma {:induction false} SortTreeOfSorted(ns: seq<Node>)
    requires SortedDeep(ns)
    ensures SortTree(ns) == ns
    decreases ns
  {
    var cs := SortChildren(ns);
    forall i | 0 <= i < |ns|
      ensures cs[i] == ns[i]
    {
      SortTreeOfSorted(ns[i].children);
    }
    assert cs == ns;
    SortByOfSorted(ns, NodeLe);
  }

  /** Sorting twice is sorting once. */
  lemma SortTreeIdempotent(ns: seq<Node>)
    ensures SortTree(SortTree(ns)) == SortTree(ns)
  {
    SortTreeSorted(ns);
    SortTreeOfSorted(SortTree(ns));
  }

  // ---------------------------------------------------------------------
  // Pre-order listing, size, and the search over the tree

  /** `flatten_nodes`: every node, then the nodes below it, in pre-order. */
  function Flatten(ns: seq<Node>): seq<Node>
    decreases ns
  {
    if ns == [] then [] else [ns[0]] + Flatten(ns[0].children) + Flatten(ns[1..])
  }

  /** The number of nodes in a forest. */
  function Size(ns: seq<Node>): nat
    decreases ns
  {
    if ns == [] then 0 else 1 + Size(ns[0].children) + Size(ns[1..])
  }

  /** The committee ids of a list of nodes. */
  function Values(ns: seq<Node>): seq<int> {
    if ns == [] then [] else [ns[0].value] + Values(ns[1..])
  }

  lemma {:induction false} FlattenSize(ns: seq<Node>)
    ensures |Flatten(ns)| == Size(ns)
    decreases ns
  {
    if ns != [] {
      FlattenSize(ns[0].children);
      FlattenSize(ns[1..]);
    }
  }

  lemma {:induction false} SizeConcat(a: seq<Node>, b: seq<Node>)
    ensures Size(a + b) == Size(a) + Size(b)
  {
    if a != [] {
      assert (a + b)[1..] == a[1..] + b;
      SizeConcat(a[1..], b);
    } else {
      assert a + b == b;
    }
  }

  lemma {:induction false} FlattenConcat(a: seq<Node>, b: seq<Node>)
    ensures Flatten(a + b) == Flatten(a) + Flatten(b)
  {
    if a != [] {
      assert (a + b)[1..] == a[1..] + b;
      FlattenConcat(a[1..], b);
    } else {
      assert a + b == b;
    }
  }

  lemma {:induction false} ValuesConcat(a: seq<Node>, b: seq<Node>)
    ensures Values(a + b) == Values(a) + Values(b)
  {
    if a != [] {
      assert (a + b)[1..] == a[1..] + b;
      ValuesConcat(a[1..], b);
    } else {
      assert a + b == b;
    }
  }

  /** The committee ids anywhere in a forest, with their multiplicities. */
  function AllIds(ns: seq<Node>): multiset<int>
    decreases ns
  {
    if ns == [] then multiset{} else multiset{ns[0].value} + AllIds(ns[0].children) + AllIds(ns[1..])
  }

  /** The ids the pre-order listing shows are exactly the ids in the forest. */
  lemma {:induction false} FlattenIds(ns: seq<Node>)
    ensures multiset(Values(Flatten(ns))) == AllIds(ns)
    decreases ns
  {
    if ns != [] {
      FlattenIds(ns[0].children);
      FlattenIds(ns[1..]);
      ValuesConcat([ns[0]] + Flatten(ns[0].children), Flatten(ns[1..]));
      ValuesConcat([ns[0]], Flatten(ns[0].children));
    }
  }

  /** How often a committee id occurs in a forest. */
  function Count(ns: seq<Node>, v: int): nat
    decreases ns
  {
    if ns == [] then 0 else (if ns[0].value == v then 1 else 0) + Count(ns[0].children, v) + Count(ns[1..], v)
  }

  /** A forest is its first node, the nodes below it, and the rest. */
  lemma ConsUnfold(n: Node, rest: seq<Node>)
    ensures Size([n] + rest) == 1 + Size(n.children) + Size(rest)
    ensures forall v :: Count([n] + rest, v) == (if n.value == v then 1 else 0) + Count(n.children, v) + Count(rest, v)
  {
    assert ([n] + rest)[1..] == rest;
  }

  lemma {:induction false} AllIdsCount(ns: seq<Node>, v: int)
    ensures AllIds(ns)[v] == Count(ns, v)
    decreases ns
  {
    if ns != [] {
      AllIdsCount(ns[0].children, v);
      AllIdsCount(ns[1..], v);
    }
  }

  lemma {:induction false} CountInsert(x: Node, ys: seq<Node>, v: int)
    ensures Count(Insert(x, ys, NodeLe), v) == Count([x], v) + Count(ys, v)
  {
    ConsUnfold(x, []);
    assert [x] + [] == [x];
    if ys == [] {
    } else if NodeLe(x, ys[0]) {
      ConsUnfold(x, ys);
    } else {
      CountInsert(x, ys[1..], v);
      ConsUnfold(ys[0], Insert(x, ys[1..], NodeLe));
      ConsUnfold(ys[0], ys[1..]);
      assert ys == [ys[0]] + ys[1..];
    }
  }

  lemma {:induction false} SizeInsert(x: Node, ys: seq<Node>)
    ensures Size(Insert(x, ys, NodeLe)) == Size([x]) + Size(ys)
  {
    ConsUnfold(x, []);
    assert [x] + [] == [x];
    if ys == [] {
    } else if NodeLe(x, ys[0]) {
      ConsUnfold(x, ys);
    } else {
      SizeInsert(x, ys[1..]);
      ConsUnfold(ys[0], Insert(x, ys[1..], NodeLe));
      ConsUnfold(ys[0], ys[1..]);
      assert ys == [ys[0]] + ys[1..];
    }
  }

  lemma {:induction false} CountSortBy(xs: seq<Node>, v: int)
    ensures Count(SortBy(xs, NodeLe), v) == Count(xs, v)
  {
    if xs != [] {
      var x, tail := xs[0], xs[1..];
      var rest := SortBy(tail, NodeLe);
      assert SortBy(xs, NodeLe) == Insert(x, rest, NodeLe);
      CountSortBy(tail, v);
      CountInsert(x, rest, v);
      assert xs == [x] + tail;
      ConsUnfold(x, tail);
      ConsUnfold(x, []);
      assert [x] + [] == [x];
    }
  }

  lemma {:induction false} SizeSortBy(xs: seq<Node>)
    ensures Size(SortBy(xs, NodeLe)) == Size(xs)
  {
    if xs != [] {
      var x, tail := xs[0], xs[1..];
      var rest := SortBy(tail, NodeLe);
      assert SortBy(xs, NodeLe) == Insert(x, rest, NodeLe);
      SizeSortBy(tail);
      SizeInsert(x, rest);
      assert xs == [x] + tail;
      ConsUnfold(x, tail);
      ConsUnfold(x, []);
      assert [x] + [] == [x];
    }
  }

  /**
   * Sorting only permutes: the sorted tree holds exactly the committee ids
   * of the unsorted one, as often as it did, and as many nodes.
   */
  lemma SortTreePermutes(ns: seq<Node>)
    ensures AllIds(SortTree(ns)) == AllIds(ns)
    ensures Size(SortTree(ns)) == Size(ns)
  {
    forall v
      ensures AllIds(SortTree(ns))[v] == AllIds(ns)[v]
    {
      SortTreeCount(ns, v);
      AllIdsCount(SortTree(ns), v);
      AllIdsCount(ns, v);
    }
    SortTreeSize(ns);
  }

  lemma {:induction false} SortTreeCount(ns: seq<Node>, v: int)
    ensures Count(SortTree(ns), v) == Count(ns, v)
    decreases ns, 1
  {
    SortChildrenCount(ns, v);
    CountSortBy(SortChildren(ns), v);
  }

  lemma {:induction false} SortChildrenCount(ns: seq<Node>, v: int)
    ensures Count(SortChildren(ns), v) == Count(ns, v)
    decreases ns, 0
  {
    if ns != [] {
      var n := ns[0];
      var sc := SortChildren(ns);
      assert sc[0] == n.(children := SortTree(n.children));
      assert sc[1..] == SortChildren(ns[1..]);
      SortTreeCount(n.children, v);
      SortChildrenCount(ns[1..], v);
    }
  }

  lemma {:induction false} SortTreeSize(ns: seq<Node>)
    ensures Size(SortTree(ns)) == Size(ns)
    decreases ns, 1
  {
    SortChildrenSize(ns);
    SizeSortBy(SortChildren(ns));
  }

  lemma {:induction false} SortChildrenSize(ns: seq<Node>)
    ensures Size(SortChildren(ns)) == Size(ns)
    decreases ns, 0
  {
    if ns != [] {
      var n := ns[0];
      var sc := SortChildren(ns);
      assert sc[0] == n.(children := SortTree(n.children));
      assert sc[1..] == SortChildren(ns[1..]);
      SortTreeSize(n.children);
      SortChildrenSize(ns[1..]);
    }
  }

  /** A search hit: the query is a case-insensitive substring of the label. */
  predicate LabelMatches(query: string, n: Node) {
    IsSubstring(Lower(query), Lower(n.name))
  }

  /**
   * The committee search of the main page: the nodes of the pre-order
   * listing whose label contains the query, ignoring case, in listing order.
   */
  function SearchNodes(query: string, flat: seq<Node>): (r: seq<Node>)
    ensures forall n :: n in r <==> n in flat && LabelMatches(query, n)
    ensures |r| <= |flat|
  {
    if flat == [] then []
    else (if LabelMatches(query, flat[0]) then [flat[0]] else []) + SearchNodes(query, flat[1..])
  }

  // ---------------------------------------------------------------------
  // The front page's `sort_nested_list_of_dicts`

  /**
   * The list branch: every element processed, then the list sorted by the
   * same key as `sort_nodes` (`str(label or '')` is the label itself, labels
   * being strings here).
   */
  function NestedSortList(ns: seq<Node>): (r: seq<Node>)
    ensures |r| == |ns| && Size(r) == Size(ns)
    decreases Size(ns), 1
  {
    var each := NestedSortEach(ns);
    SizeSortBy(each);
    SortBy(each, NodeLe)
  }

  function NestedSortEach(ns: seq<Node>): (r: seq<Node>)
    ensures |r| == |ns| && Size(r) == Size(ns)
    decreases Size(ns), 0
  {
    if ns == [] then []
    else
      var head := NestedSortNode(ns[0]);
      var tail := NestedSortEach(ns[1..]);
      assert ns == [ns[0]] + ns[1..];
      ConsUnfold(ns[0], ns[1..]);
      ConsUnfold(head, tail);
      [head] + tail
  }

  /**
   * The dictionary branch: every value processed (the children list among
   * them), then the processed children list processed once more.
   */
  function NestedSortNode(n: Node): (r: Node)
    ensures r.name == n.name && r.value == n.value && Size(r.children) == Size(n.children)
    decreases Size(n.children), 2
  {
    var once := NestedSortList(n.children);
    n.(children := NestedSortList(once))
  }

  /**
   * The front page's sort yields the data layer's `sort_nodes` order: the
   * second pass over an already processed children list changes nothing.
   */
  lemma {:induction false} NestedSortIsSortTree(ns: seq<Node>)
    ensures NestedSortList(ns) == SortTree(ns)
    decreases Size(ns), 1
  {
    NestedSortEachIsSortChildren(ns);
  }

  lemma {:induction false} NestedSortEachIsSortChildren(ns: seq<Node>)
    ensures NestedSortEach(ns) == SortChildren(ns)
    decreases Size(ns), 0
  {
    if ns != [] {
      assert ns == [ns[0]] + ns[1..];
      ConsUnfold(ns[0], ns[1..]);
      NestedSortNodeIsSorted(ns[0]);
      NestedSortEachIsSortChildren(ns[1..]);
    }
  }

  lemma {:induction false} NestedSortNodeIsSorted(n: Node)
    ensures NestedSortNode(n) == n.(children := SortTree(n.children))
    decreases Size(n.children), 2
  {
    var once := NestedSortList(n.children);
    NestedSortIsSortTree(n.children);
    NestedSortIsSortTree(once);
    SortTreeIdempotent(n.children);
  }

  // ---------------------------------------------------------------------
  // The three builders

  lemma {:induction false} ChildIdsAreRowIds(rows: seq<Row>, p: int)
    ensures forall i | 0 <= i < |ChildIds(rows, p)| :: ChildIds(rows, p)[i] in Ids(rows)
  {
    if rows != [] {
      var front := rows[..|rows| - 1];
      ChildIdsAreRowIds(front, p);
      assert rows == front + [rows[|rows| - 1]];
      assert Ids(rows) == Ids(front) + {rows[|rows| - 1].id};
    }
  }

  lemma {:induction false} RootIdsAreRowIds(rows: seq<Row>, rule: RootRule)
    ensures forall i | 0 <= i < |RootIds(rows, rule)| :: RootIds(rows, rule)[i] in Ids(rows)
  {
    if rows != [] {
      var front := rows[..|rows| - 1];
      RootIdsAreRowIds(front, rule);
      assert rows == front + [rows[|rows| - 1]];
      assert Ids(rows) == Ids(front) + {rows[|rows| - 1].id};
    }
  }

  lemma IndexOfRowsClosed(rows: seq<Row>, nodeMap: map<int, Node>)
    requires nodeMap.Keys == Ids(rows)
    ensures IndexClosed(nodeMap, ChildrenMapOf(rows))
  {
    forall p | p in ChildrenMapOf(rows)
      ensures forall i | 0 <= i < |ChildrenMapOf(rows)[p]| :: ChildrenMapOf(rows)[p][i] in nodeMap
    {
      ChildIdsAreRowIds(rows, p);
    }
  }

  /**
   * `get_committee_tree`: the sorted forest under the parentless committees,
   * the parent map and the node map.
   */
  method GetCommitteeTree(rows: seq<Row>) returns (tree: seq<Node>, parentMap: ParentMap, nodeMap: map<int, Node>)
    requires DistinctIds(rows)
    ensures nodeMap.Keys == Ids(rows) && parentMap.Keys == Ids(rows)
    ensures forall i | 0 <= i < |rows| :: nodeMap[rows[i].id] == NodeOf(rows[i]) && parentMap[rows[i].id] == rows[i].parent
    ensures IndexClosed(nodeMap, ChildrenMapOf(rows))
    ensures forall i | 0 <= i < |RootIds(rows, AnyParentless)| :: RootIds(rows, AnyParentless)[i] in nodeMap
    ensures tree == SortTree(Tree(nodeMap, ChildrenMapOf(rows), RootIds(rows, AnyParentless), |rows|))
    ensures SortedDeep(tree)
    ensures AllIds(tree) == AllIds(Tree(nodeMap, ChildrenMapOf(rows), RootIds(rows, AnyParentless), |rows|))
  {
    var roots, children;
    nodeMap, parentMap, roots, children := BuildIndex(rows, AnyParentless);
    IndexOfRowsClosed(rows, nodeMap);
    RootIdsAreRowIds(rows, AnyParentless);
    var forest := Tree(nodeMap, children, roots, |rows|);
    tree := SortTree(forest);
    SortTreeSorted(forest);
    SortTreePermutes(forest);
  }

  /**
   * The front page's builder: the same index with every parentless row a
   * root, sorted by `sort_nested_list_of_dicts`, which orders it exactly as
   * `get_committee_tree` does.
   */
  method FrontPageTree(rows: seq<Row>) returns (tree: seq<Node>)
    requires DistinctIds(rows)
    ensures exists nodeMap: map<int, Node> | nodeMap.Keys == Ids(rows) ::
      && IndexClosed(nodeMap, ChildrenMapOf(rows))
      && (forall i | 0 <= i < |RootIds(rows, AnyParentless)| :: RootIds(rows, AnyParentless)[i] in nodeMap)
      && tree == SortTree(Tree(nodeMap, ChildrenMapOf(rows), RootIds(rows, AnyParentless), |rows|))
    ensures SortedDeep(tree)
  {
    var nodeMap, parentMap, roots, children := BuildIndex(rows, AnyParentless);
    IndexOfRowsClosed(rows, nodeMap);
    RootIdsAreRowIds(rows, AnyParentless);
    var forest := Tree(nodeMap, children, roots, |rows|);
    tree := NestedSortList(forest);
    NestedSortIsSortTree(forest);
    SortTreeSorted(forest);
  }

  /**
   * The first app's builder: only a parentless 'HOVEDUDVALG' is a root and
   * the children lists keep row order (no sorting).
   */
  method FirstAppTree(rows: seq<Row>) returns (tree: seq<Node>, nodeMap: map<int, Node>)
    requires DistinctIds(rows)
    ensures nodeMap.Keys == Ids(rows)
    ensures forall i | 0 <= i < |rows| :: nodeMap[rows[i].id] == NodeOf(rows[i])
    ensures IndexClosed(nodeMap, ChildrenMapOf(rows))
    ensures forall i | 0 <= i < |RootIds(rows, OnlyNamed("HOVEDUDVALG"))| :: RootIds(rows, OnlyNamed("HOVEDUDVALG"))[i] in nodeMap
    ensures tree == Tree(nodeMap, ChildrenMapOf(rows), RootIds(rows, OnlyNamed("HOVEDUDVALG")), |rows|)
    ensures Values(tree) == RootIds(rows, OnlyNamed("HOVEDUDVALG"))
  {
    var parentMap, roots, children;
    nodeMap, parentMap, roots, children := BuildIndex(rows, OnlyNamed("HOVEDUDVALG"));
    IndexOfRowsClosed(rows, nodeMap);
    RootIdsAreRowIds(rows, OnlyNamed("HOVEDUDVALG"));
    tree := Tree(nodeMap, children, roots, |rows|);
    TreeValues(nodeMap, children, roots, |rows|);
  }

  /** The nodes of a forest carry the ids they were unfolded from, in that order. */
  lemma TreeValues(nodeMap: map<int, Node>, children: map<int, seq<int>>, ids: seq<int>, fuel: nat)
    requires IndexClosed(nodeMap, children)
    requires forall i | 0 <= i < |ids| :: ids[i] in nodeMap
    requires forall c | c in nodeMap :: nodeMap[c].value == c
    ensures Values(Tree(nodeMap, children, ids, fuel)) == ids
  {
    var t := Tree(nodeMap, children, ids, fuel);
    ValuesAt(t);
  }

  lemma {:induction false} ValuesAt(ns: seq<Node>)
    ensures |Values(ns)| == |ns|
    ensures forall i | 0 <= i < |ns| :: Values(ns)[i] == ns[i].value
  {
    if ns != [] {
      ValuesAt(ns[1..]);
    }
  }
}
