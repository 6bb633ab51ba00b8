/**
 * The structure page's committee diagram: the group names offered for
 * colouring, and the nodes and edges drawn below a chosen top committee
 * down to a chosen number of levels.
 *
 * The rows are the `udvalg` table in the order the database returns them,
 * with a NULL name read as "". Node and edge ids are committee ids (the page
 * uses `str(id)`, which is one-to-one on ids). Colours, styles, positions and
 * the layout direction are not part of the model.
 */
module Structure {
  import opened Wrappers
  import opened Text
  import opened Hierarchy

  // ---------------------------------------------------------------------
  // Group names
  // ---------------------------------------------------------------------

  /**
   * The group a committee name announces: the stripped text before its
   * first '-', when the name holds a '-' and that text is not blank.
   */
  function GroupOf(name: string): (g: Option<string>)
    ensures g.Some? ==> '-' in name && g.value != []
    ensures g.Some? ==> !IsSpace(g.value[0]) && !IsSpace(g.value[|g.value| - 1])
  {
    // `split('-')` on a name holding a '-' always yields at least two parts.
    if name != [] && '-' in name then
      var g := Strip(BeforeFirst(name, '-'));
      if g != [] then Some(g) else None
    else None
  }

  /** The groups found in the rows, each once, in the order first announced. */
  function GroupsOf(rows: seq<Row>): (groups: seq<string>)
    ensures forall g | g in groups :: g != []
  {
    if rows == [] then []
    else
      var prev := GroupsOf(rows[..|rows| - 1]);
      var g := GroupOf(rows[|rows| - 1].name);
      if g.Some? && g.value !in prev then prev + [g.value] else prev
  }

  /** No group is listed twice. */
  lemma {:induction false} GroupsDistinct(rows: seq<Row>)
    ensures forall i, j | 0 <= i < j < |GroupsOf(rows)| :: GroupsOf(rows)[i] != GroupsOf(rows)[j]
  {
    if rows != [] {
      var prev := GroupsOf(rows[..|rows| - 1]);
      GroupsDistinct(rows[..|rows| - 1]);
      var groups := GroupsOf(rows);
      forall i, j | 0 <= i < j < |groups|
        ensures groups[i] != groups[j]
      {
        if j == |prev| {
          assert groups[i] == prev[i];
        } else {
          assert groups[i] == prev[i] && groups[j] == prev[j];
        }
      }
    }
  }

  /** The groups are exactly the groups some row announces. */
  lemma {:induction false} GroupsAnnounced(rows: seq<Row>, g: string)
    ensures g in GroupsOf(rows) <==> exists k | 0 <= k < |rows| :: GroupOf(rows[k].name) == Some(g)
  {
    if rows != [] {
      var init := rows[..|rows| - 1];
      GroupsAnnounced(init, g);
      var prev := GroupsOf(init);
      if g in GroupsOf(rows) {
        if g in prev {
          var k :| 0 <= k < |init| && GroupOf(init[k].name) == Some(g);
          assert rows[k] == init[k];
        } else {
          assert GroupOf(rows[|rows| - 1].name) == Some(g);
        }
      }
      if exists k | 0 <= k < |rows| :: GroupOf(rows[k].name) == Some(g) {
        var k :| 0 <= k < |rows| && GroupOf(rows[k].name) == Some(g);
        if k < |rows| - 1 {
          assert init[k] == rows[k];
        }
      }
    }
  }

  /** `get_groups` */
  method GetGroups(rows: seq<Row>) returns (groups: seq<string>)
    ensures groups == GroupsOf(rows)
  {
    groups := [];
    for i := 0 to |rows|
      invariant groups == GroupsOf(rows[..i])
    {
      assert rows[..i + 1][..i] == rows[..i];
      var name := rows[i].name;
      if name != [] && '-' in name {
        var groupName := Strip(BeforeFirst(name, '-'));
        assert GroupOf(name) == if groupName != [] then Some(groupName) else None;
        if groupName != [] && groupName !in groups {
          groups := groups + [groupName];
        }
      } else {
        assert GroupOf(name).None?;
      }
    }
    assert rows[..|rows|] == rows;
  }

  /** A group keeps its place when more rows follow: the groups of a prefix are a prefix of the groups. */
  lemma {:induction false} GroupsKeepTheirPlace(rows: seq<Row>, n: nat)
    requires n <= |rows|
    ensures GroupsOf(rows[..n]) <= GroupsOf(rows)
    decreases |rows|
  {
    if n < |rows| {
      var init := rows[..|rows| - 1];
      assert init[..n] == rows[..n];
      GroupsKeepTheirPlace(init, n);
    } else {
      assert rows[..n] == rows;
    }
  }

  // ---------------------------------------------------------------------
  // Which committees are drawn
  // ---------------------------------------------------------------------

  /** The committee `k` parent steps above `c`; None when the walk ends first. */
  function Ancestor(pm: ParentMap, c: int, k: nat): Option<int>
    decreases k
  {
    if k == 0 then Some(c)
    else match Lookup(pm, c)
      case None => None
      case Some(p) => Ancestor(pm, p, k - 1)
  }

  /** The ancestors of `c` are the entries of its chain, and there are no others. */
  lemma {:induction false} AncestorIsChainEntry(pm: ParentMap, c: int, k: nat)
    requires Acyclic(pm)
    ensures k < |Chain(pm, c)| ==> Ancestor(pm, c, k) == Some(Chain(pm, c)[k])
    ensures k >= |Chain(pm, c)| ==> Ancestor(pm, c, k) == None
    decreases k
  {
    ChainStep(pm, c);
    if k > 0 && Lookup(pm, c).Some? {
      AncestorIsChainEntry(pm, Lookup(pm, c).value, k - 1);
    }
  }

  /**
   * The level of a committee whose parent is `p`, counted below `top`
   * (1 for a child of `top`), as the page's parent walk finds it; None
   * when the walk from `p` never meets `top`.
   */
  function LevelBelow(pm: ParentMap, top: int, p: int): (d: Option<nat>)
    requires Acyclic(pm)
    ensures d.Some? ==> d.value >= 1
  {
    var ch := Chain(pm, p);
    if top in ch then Some(1 + FirstIndex(ch, top)) else None
  }

  /** The walk meeting `top` first at chain position `i` puts the committee at level `i + 1`. */
  lemma LevelAtFirstMeeting(pm: ParentMap, top: int, p: int, i: nat)
    requires Acyclic(pm)
    requires i < |Chain(pm, p)| && Chain(pm, p)[i] == top
    requires forall k | 0 <= k < i :: Chain(pm, p)[k] != top
    ensures LevelBelow(pm, top, p) == Some(i + 1)
  {
    FirstIndexIs(Chain(pm, p), top, i);
  }

  /** A walk that never meets `top` gives no level. */
  lemma LevelNoneOffChain(pm: ParentMap, top: int, p: int)
    requires Acyclic(pm)
    requires forall k | 0 <= k < |Chain(pm, p)| :: Chain(pm, p)[k] != top
    ensures LevelBelow(pm, top, p).None?
  {
  }

  /** The level below `top` is the parent-step distance to `top`, plus one. */
  lemma LevelIsAncestorDistance(pm: ParentMap, top: int, p: int, d: nat)
    requires Acyclic(pm)
    ensures LevelBelow(pm, top, p) == Some(d) <==> d >= 1 && Ancestor(pm, p, d - 1) == Some(top)
  {
    var ch := Chain(pm, p);
    ChainCharacterization(pm, p, ch);
    if d >= 1 {
      AncestorIsChainEntry(pm, p, d - 1);
    }
    if top in ch && d >= 1 && Ancestor(pm, p, d - 1) == Some(top) {
      var k := FirstIndex(ch, top);
      if k < d - 1 {
        AncestorPathDistinct(pm, p, ch, k, d - 1);
      }
    }
  }

  /**
   * Whether a row is drawn: the top committee itself, or a committee with
   * a parent whose walk reaches the top within `maxDepth` levels. Without
   * a depth (`max_depth=None`) only the top committee is drawn.
   */
  predicate Shown(pm: ParentMap, top: int, maxDepth: Option<int>, r: Row)
    requires Acyclic(pm)
  {
    || r.id == top
    || (&& r.parent.Some? && maxDepth.Some?
        && LevelBelow(pm, top, r.parent.value).Some?
        && LevelBelow(pm, top, r.parent.value).value <= maxDepth.value)
  }

  /**
   * A committee other than the top one is drawn exactly when it has a
   * parent, a depth is given, and the top committee is reached by fewer
   * than `maxDepth` steps up from that parent.
   */
  lemma DrawnIffWithinDepth(pm: ParentMap, top: int, maxDepth: Option<int>, r: Row)
    requires Acyclic(pm)
    requires r.id != top
    ensures Shown(pm, top, maxDepth, r) <==>
      && r.parent.Some? && maxDepth.Some?
      && exists k: nat | k < maxDepth.value :: Ancestor(pm, r.parent.value, k) == Some(top)
  {
    if Shown(pm, top, maxDepth, r) {
      var d := LevelBelow(pm, top, r.parent.value).value;
      LevelIsAncestorDistance(pm, top, r.parent.value, d);
      assert Ancestor(pm, r.parent.value, d - 1) == Some(top);
    }
    if && r.parent.Some? && maxDepth.Some?
       && exists k: nat | k < maxDepth.value :: Ancestor(pm, r.parent.value, k) == Some(top)
    {
      var k: nat :| k < maxDepth.value && Ancestor(pm, r.parent.value, k) == Some(top);
      LevelIsAncestorDistance(pm, top, r.parent.value, k + 1);
    }
  }

  /** The drawn rows, in the rows' order. */
  function ShownRows(pm: ParentMap, top: int, maxDepth: Option<int>, rows: seq<Row>): (shown: seq<Row>)
    requires Acyclic(pm)
    ensures |shown| <= |rows|
  {
    if rows == [] then []
    else
      var init := rows[..|rows| - 1];
      var x := rows[|rows| - 1];
      ShownRows(pm, top, maxDepth, init) + (if Shown(pm, top, maxDepth, x) then [x] else [])
  }

  /** A row is among the drawn rows exactly when it is one of the rows and is drawn. */
  lemma {:induction false} ShownRowsMember(pm: ParentMap, top: int, maxDepth: Option<int>, rows: seq<Row>, x: Row)
    requires Acyclic(pm)
    ensures x in ShownRows(pm, top, maxDepth, rows) <==> x in rows && Shown(pm, top, maxDepth, x)
  {
    if rows != [] {
      var init := rows[..|rows| - 1];
      assert rows == init + [rows[|rows| - 1]];
      ShownRowsMember(pm, top, maxDepth, init, x);
    }
  }

  /** The rows the diagram draws, the parent walk scanning the same rows. */
  function Drawn(rows: seq<Row>, top: int, maxDepth: Option<int>): seq<Row>
    requires Acyclic(ParentMapOf(rows))
  {
    ShownRows(ParentMapOf(rows), top, maxDepth, rows)
  }

  // ---------------------------------------------------------------------
  // Nodes and edges
  // ---------------------------------------------------------------------

  datatype NodeKind = Input | Default | Output

  /** A drawn committee: its id, its node type and its text. */
  datatype Node = Node(id: int, kind: NodeKind, content: string)

  /** An edge from the parent (`source`) to the committee (`target`), with the committee's id. */
  datatype Edge = Edge(id: int, source: int, target: int)

  /**
   * `UnboundLocalError`: the colour and style of a node are those of the
   * last row with a name, and a drawn row that no named row precedes (or
   * is) has none.
   */
  datatype BuildError = StyleUnbound

  /** The node text of the structure page: the name as stored. */
  function Plain(name: string): string {
    name
  }

  /** One node per drawn row, the top committee's typed 'input'. */
  function NodesOf(top: int, shown: seq<Row>, render: string -> string): (nodes: seq<Node>)
    ensures |nodes| == |shown|
  {
    if shown == [] then []
    else
      var x := shown[|shown| - 1];
      NodesOf(top, shown[..|shown| - 1], render) + [Node(x.id, if x.id == top then Input else Default, render(x.name))]
  }

  /**
   * The k-th node is the k-th drawn row's: its id, its rendered name, and
   * the type 'input' exactly for the top committee (never 'output' before
   * leaf marking).
   */
  lemma {:induction false} NodesOfAt(top: int, shown: seq<Row>, render: string -> string, k: nat)
    requires k < |shown|
    ensures var n := NodesOf(top, shown, render)[k];
      && n.id == shown[k].id && n.content == render(shown[k].name)
      && (n.kind == Input <==> shown[k].id == top) && n.kind != Output
  {
    if k < |shown| - 1 {
      NodesOfAt(top, shown[..|shown| - 1], render, k);
    }
  }

  /** One edge per drawn row other than the top committee, from its parent to it. */
  function EdgesOf(top: int, shown: seq<Row>): (edges: seq<Edge>)
    ensures |edges| <= |shown|
  {
    if shown == [] then []
    else
      var init := shown[..|shown| - 1];
      var x := shown[|shown| - 1];
      EdgesOf(top, init) + (if x.id != top && x.parent.Some? then [Edge(x.id, x.parent.value, x.id)] else [])
  }

  /** The edges are exactly those from the parent of a drawn committee other than the top one to it. */
  lemma {:induction false} EdgesOfMember(top: int, shown: seq<Row>, e: Edge)
    ensures e in EdgesOf(top, shown) <==>
      exists x | x in shown :: x.id != top && x.parent.Some? && e == Edge(x.id, x.parent.value, x.id)
  {
    if shown != [] {
      var init := shown[..|shown| - 1];
      var x := shown[|shown| - 1];
      assert shown == init + [x];
      EdgesOfMember(top, init, e);
      if exists y | y in init :: y.id != top && y.parent.Some? && e == Edge(y.id, y.parent.value, y.id) {
        var y :| y in init && y.id != top && y.parent.Some? && e == Edge(y.id, y.parent.value, y.id);
        assert y in shown;
      }
      if exists y | y in shown :: y.id != top && y.parent.Some? && e == Edge(y.id, y.parent.value, y.id) {
        var y :| y in shown && y.id != top && y.parent.Some? && e == Edge(y.id, y.parent.value, y.id);
        if y != x {
          assert y in init;
        }
      }
    }
  }

  /** How many of the rows are the top committee. */
  function TopCount(top: int, shown: seq<Row>): (n: nat)
    ensures n <= |shown|
  {
    if shown == [] then 0
    else TopCount(top, shown[..|shown| - 1]) + (if shown[|shown| - 1].id == top then 1 else 0)
  }

  /** Every drawn committee other than the top one gets exactly one edge. */
  lemma {:induction false} OneEdgePerDrawnCommittee(top: int, shown: seq<Row>)
    requires forall x | x in shown :: x.id == top || x.parent.Some?
    ensures |EdgesOf(top, shown)| + TopCount(top, shown) == |shown|
  {
    if shown != [] {
      var init := shown[..|shown| - 1];
      assert forall x | x in init :: x in shown;
      OneEdgePerDrawnCommittee(top, init);
      assert shown[|shown| - 1] in shown;
    }
  }

  /** The ids edges start from. */
  function Sources(edges: seq<Edge>): set<int> {
    set e | e in edges :: e.source
  }

  /** The nodes after leaf marking: a non-input node that starts no edge becomes 'output'. */
  function Marked(nodes: seq<Node>, sources: set<int>): (r: seq<Node>)
    ensures |r| == |nodes|
    ensures forall k | 0 <= k < |nodes| :: r[k].id == nodes[k].id && r[k].content == nodes[k].content
  {
    seq(|nodes|, k requires 0 <= k < |nodes| =>
      if nodes[k].kind != Input && nodes[k].id !in sources then nodes[k].(kind := Output) else nodes[k])
  }

  /** The leaf-marking loop over the node objects. */
  method MarkLeaves(nodes: array<Node>, sources: set<int>)
    modifies nodes
    ensures nodes[..] == Marked(old(nodes[..]), sources)
  {
    for k := 0 to nodes.Length
      invariant forall j | 0 <= j < k :: nodes[j] == Marked(old(nodes[..]), sources)[j]
      invariant forall j | k <= j < nodes.Length :: nodes[j] == old(nodes[j])
    {
      if nodes[k].kind != Input && nodes[k].id !in sources {
        nodes[k] := nodes[k].(kind := Output);
      }
    }
  }

  /** The node objects of a diagram, put in an array and leaf-marked against its edges. */
  method MarkNodes(nodes: seq<Node>, edges: seq<Edge>) returns (marked: seq<Node>)
    ensures marked == Marked(nodes, Sources(edges))
  {
    var sources := set e | e in edges :: e.source;
    var objects := new Node[|nodes|];
    forall k | 0 <= k < |nodes| {
      objects[k] := nodes[k];
    }
    MarkLeaves(objects, sources);
    marked := objects[..];
  }

  /**
   * The node types of a finished diagram: the top committee is 'input',
   * a committee that is some edge's source is a plain node, and every other
   * drawn committee is 'output'.
   */
  lemma DiagramKinds(top: int, shown: seq<Row>, render: string -> string)
    ensures var edges := EdgesOf(top, shown);
      var nodes := Marked(NodesOf(top, shown, render), Sources(edges));
      forall k | 0 <= k < |nodes| ::
        && (nodes[k].kind == Input <==> nodes[k].id == top)
        && (nodes[k].kind == Output <==> nodes[k].id != top && forall e | e in edges :: e.source != nodes[k].id)
  {
    var edges := EdgesOf(top, shown);
    var before := NodesOf(top, shown, render);
    var nodes := Marked(before, Sources(edges));
    forall k | 0 <= k < |nodes|
      ensures nodes[k].kind == Input <==> nodes[k].id == top
      ensures nodes[k].kind == Output <==> nodes[k].id != top && forall e | e in edges :: e.source != nodes[k].id
    {
      NodesOfAt(top, shown, render, k);
      if nodes[k].id != top && nodes[k].id in Sources(edges) {
        var e :| e in edges && e.source == nodes[k].id;
      }
    }
  }

  /**
   * The walk up from `parent` in `build_hierarchy`: whether it meets `top`,
   * and at which level. The next parent is the one recorded by the first
   * row with the current id; the walk stops at a NULL parent or an id no
   * row carries.
   */
  method DescendantDepth(rows: seq<Row>, top: int, parent: int) returns (isDescendant: bool, depth: nat)
    requires Acyclic(ParentMapOf(rows))
    ensures isDescendant <==> LevelBelow(ParentMapOf(rows), top, parent).Some?
    ensures isDescendant ==> depth == LevelBelow(ParentMapOf(rows), top, parent).value
  {
    ghost var pm := ParentMapOf(rows);
    ghost var ch := Chain(pm, parent);
    depth := 1;
    var current := Some(parent);
    isDescendant := false;
    while current.Some?
      invariant 1 <= depth <= |ch| + 1
      invariant current.Some? ==> depth <= |ch| && current.value == ch[depth - 1]
      invariant current.None? ==> depth == |ch| + 1
      invariant forall k | 0 <= k < depth - 1 :: ch[k] != top
      decreases |ch| + 1 - depth
    {
      if current.value == top {
        LevelAtFirstMeeting(pm, top, parent, depth - 1);
        isDescendant := true;
        return;
      }
      var parentItem := FindRow(rows, current.value);
      ChainLink(pm, parent, depth - 1);
      if parentItem.Some? {
        current := parentItem.value.parent;
        depth := depth + 1;
      } else {
        assert depth == |ch|;
        LevelNoneOffChain(pm, top, parent);
        return;
      }
    }
    LevelNoneOffChain(pm, top, parent);
  }

  /** `next((x for x in data if x['id'] == c), None)` */
  function FindRow(rows: seq<Row>, c: int): (r: Option<Row>)
    ensures r.None? <==> c !in ParentMapOf(rows)
    ensures r.Some? ==> r.value.id == c && r.value in rows && Lookup(ParentMapOf(rows), c) == r.value.parent
  {
    if rows == [] then None
    else if rows[0].id == c then Some(rows[0])
    else
      var r := FindRow(rows[1..], c);
      assert rows == [rows[0]] + rows[1..];
      r
  }

  /**
   * The branches of `build_hierarchy` that decide whether a row is drawn:
   * the top committee always, a row without a parent never, and otherwise
   * a row whose parent walk reaches the top within `maxDepth` levels.
   */
  method IsDrawn(rows: seq<Row>, top: int, maxDepth: Option<int>, item: Row) returns (drawn: bool)
    requires Acyclic(ParentMapOf(rows))
    ensures drawn == Shown(ParentMapOf(rows), top, maxDepth, item)
  {
    if item.id == top {
      drawn := true;
    } else if item.parent.None? {
      drawn := false;
    } else if maxDepth.Some? {
      var isDescendant, depth := DescendantDepth(rows, top, item.parent.value);
      drawn := isDescendant && depth <= maxDepth.value;
    } else {
      drawn := false;
    }
  }

  lemma ShownRowsStep(pm: ParentMap, top: int, maxDepth: Option<int>, rows: seq<Row>, i: nat)
    requires Acyclic(pm) && i < |rows|
    ensures ShownRows(pm, top, maxDepth, rows[..i + 1])
      == ShownRows(pm, top, maxDepth, rows[..i]) + (if Shown(pm, top, maxDepth, rows[i]) then [rows[i]] else [])
  {
    assert rows[..i + 1][..i] == rows[..i];
  }

  lemma NodesOfStep(top: int, shown: seq<Row>, x: Row, render: string -> string)
    ensures NodesOf(top, shown + [x], render)
      == NodesOf(top, shown, render) + [Node(x.id, if x.id == top then Input else Default, render(x.name))]
  {
    assert (shown + [x])[..|shown|] == shown;
  }

  lemma EdgesOfStep(top: int, shown: seq<Row>, x: Row)
    ensures EdgesOf(top, shown + [x])
      == EdgesOf(top, shown) + (if x.id != top && x.parent.Some? then [Edge(x.id, x.parent.value, x.id)] else [])
  {
    assert (shown + [x])[..|shown|] == shown;
  }

  /** Some row has a name. */
  predicate AnyNamed(rows: seq<Row>) {
    rows != [] && (AnyNamed(rows[..|rows| - 1]) || rows[|rows| - 1].name != [])
  }

  /** Some drawn row is preceded by no row with a name, nor has one itself. */
  predicate UnstyledIn(pm: ParentMap, top: int, maxDepth: Option<int>, rows: seq<Row>)
    requires Acyclic(pm)
  {
    && rows != []
    && (|| UnstyledIn(pm, top, maxDepth, rows[..|rows| - 1])
        || (Shown(pm, top, maxDepth, rows[|rows| - 1]) && !AnyNamed(rows)))
  }

  /** A drawn row that no row with a name precedes or is. */
  predicate Unstyled(rows: seq<Row>, top: int, maxDepth: Option<int>)
    requires Acyclic(ParentMapOf(rows))
  {
    UnstyledIn(ParentMapOf(rows), top, maxDepth, rows)
  }

  /** `AnyNamed` holds exactly when some row has a non-empty name. */
  lemma {:induction false} AnyNamedMeaning(rows: seq<Row>)
    ensures AnyNamed(rows) <==> exists j | 0 <= j < |rows| :: rows[j].name != []
  {
    if rows != [] {
      var init := rows[..|rows| - 1];
      AnyNamedMeaning(init);
      if exists j | 0 <= j < |init| :: init[j].name != [] {
        var j :| 0 <= j < |init| && init[j].name != [];
        assert rows[j] == init[j];
      }
      if exists j | 0 <= j < |rows| :: rows[j].name != [] {
        var j :| 0 <= j < |rows| && rows[j].name != [];
        if j < |init| {
          assert init[j] == rows[j];
        }
      }
    }
  }

  /**
   * The style error is raised exactly when some drawn row comes before any
   * row with a name: it and every row before it have empty names.
   */
  lemma UnstyledMeaning(pm: ParentMap, top: int, maxDepth: Option<int>, rows: seq<Row>)
    requires Acyclic(pm)
    ensures UnstyledIn(pm, top, maxDepth, rows) <==>
      exists i | 0 <= i < |rows| :: Shown(pm, top, maxDepth, rows[i]) && !AnyNamed(rows[..i + 1])
  {
    if UnstyledIn(pm, top, maxDepth, rows) {
      UnstyledHasWitness(pm, top, maxDepth, rows);
    }
    if exists i | 0 <= i < |rows| :: Shown(pm, top, maxDepth, rows[i]) && !AnyNamed(rows[..i + 1]) {
      var i :| 0 <= i < |rows| && Shown(pm, top, maxDepth, rows[i]) && !AnyNamed(rows[..i + 1]);
      UnstyledAt(pm, top, maxDepth, rows, i);
    }
  }

  lemma {:induction false} UnstyledHasWitness(pm: ParentMap, top: int, maxDepth: Option<int>, rows: seq<Row>)
    requires Acyclic(pm)
    requires UnstyledIn(pm, top, maxDepth, rows)
    ensures exists i | 0 <= i < |rows| :: Shown(pm, top, maxDepth, rows[i]) && !AnyNamed(rows[..i + 1])
  {
    var init := rows[..|rows| - 1];
    if UnstyledIn(pm, top, maxDepth, init) {
      UnstyledHasWitness(pm, top, maxDepth, init);
      var i :| 0 <= i < |init| && Shown(pm, top, maxDepth, init[i]) && !AnyNamed(init[..i + 1]);
      assert rows[i] == init[i] && rows[..i + 1] == init[..i + 1];
    } else {
      assert rows[..|rows|] == rows;
    }
  }

  lemma UnstyledAt(pm: ParentMap, top: int, maxDepth: Option<int>, rows: seq<Row>, i: nat)
    requires Acyclic(pm) && i < |rows|
    requires Shown(pm, top, maxDepth, rows[i]) && !AnyNamed(rows[..i + 1])
    ensures UnstyledIn(pm, top, maxDepth, rows)
  {
    assert rows[..i + 1][..i] == rows[..i];
    UnstyledPrefix(pm, top, maxDepth, rows, i + 1);
  }

  lemma UnstyledStep(pm: ParentMap, top: int, maxDepth: Option<int>, rows: seq<Row>, i: nat)
    requires Acyclic(pm) && i < |rows|
    ensures AnyNamed(rows[..i + 1]) <==> AnyNamed(rows[..i]) || rows[i].name != []
    ensures UnstyledIn(pm, top, maxDepth, rows[..i + 1])
      <==> UnstyledIn(pm, top, maxDepth, rows[..i]) || (Shown(pm, top, maxDepth, rows[i]) && !AnyNamed(rows[..i + 1]))
  {
    assert rows[..i + 1][..i] == rows[..i];
  }

  /** A drawn row without a style in a prefix stays one in the whole. */
  lemma {:induction false} UnstyledPrefix(pm: ParentMap, top: int, maxDepth: Option<int>, rows: seq<Row>, n: nat)
    requires Acyclic(pm) && n <= |rows|
    requires UnstyledIn(pm, top, maxDepth, rows[..n])
    ensures UnstyledIn(pm, top, maxDepth, rows)
  {
    if n == |rows| {
      assert rows[..n] == rows;
    } else {
      var init := rows[..|rows| - 1];
      assert init[..n] == rows[..n];
      UnstyledPrefix(pm, top, maxDepth, init, n);
    }
  }

  /**
   * The drawing after one more row: the row's node, and the edge from its
   * parent unless it is the top committee, when the row is drawn; nothing
   * new otherwise.
   */
  method DrawNext(ghost pm: ParentMap, top: int, maxDepth: Option<int>, rows: seq<Row>, i: nat,
                  ghost shown: seq<Row>, nodes: seq<Node>, edges: seq<Edge>, drawn: bool)
    returns (ghost shown': seq<Row>, nodes': seq<Node>, edges': seq<Edge>)
    requires Acyclic(pm) && i < |rows|
    requires drawn == Shown(pm, top, maxDepth, rows[i])
    requires shown == ShownRows(pm, top, maxDepth, rows[..i])
    requires nodes == NodesOf(top, shown, Plain) && edges == EdgesOf(top, shown)
    ensures shown' == ShownRows(pm, top, maxDepth, rows[..i + 1])
    ensures nodes' == NodesOf(top, shown', Plain) && edges' == EdgesOf(top, shown')
  {
    ShownRowsStep(pm, top, maxDepth, rows, i);
    var item := rows[i];
    if drawn {
      NodesOfStep(top, shown, item, Plain);
      EdgesOfStep(top, shown, item);
      shown' := shown + [item];
      if item.id == top {
        nodes', edges' := nodes + [Node(item.id, Input, Plain(item.name))], edges;
      } else {
        nodes' := nodes + [Node(item.id, Default, Plain(item.name))];
        edges' := edges + [Edge(item.id, item.parent.value, item.id)];
      }
    } else {
      shown', nodes', edges' := shown, nodes, edges;
      assert shown + [] == shown;
    }
  }

  /**
   * The row loop of `build_hierarchy`: a node for every drawn row and an
   * edge for every drawn row but the top one, in the rows' order, or the
   * error a drawn row without a style raises.
   */
  method DrawRows(rows: seq<Row>, top: int, maxDepth: Option<int>)
    returns (r: Result<(seq<Node>, seq<Edge>), BuildError>)
    requires Acyclic(ParentMapOf(rows))
    ensures r.Failure? <==> Unstyled(rows, top, maxDepth)
    ensures r.Success? ==> r.value.0 == NodesOf(top, Drawn(rows, top, maxDepth), Plain)
    ensures r.Success? ==> r.value.1 == EdgesOf(top, Drawn(rows, top, maxDepth))
  {
    ghost var pm := ParentMapOf(rows);
    ghost var shown: seq<Row> := [];
    var nodes: seq<Node> := [];
    var edges: seq<Edge> := [];
    var named := false;
    for i := 0 to |rows|
      invariant shown == ShownRows(pm, top, maxDepth, rows[..i])
      invariant nodes == NodesOf(top, shown, Plain)
      invariant edges == EdgesOf(top, shown)
      invariant named == AnyNamed(rows[..i])
      invariant !UnstyledIn(pm, top, maxDepth, rows[..i])
    {
      var item := rows[i];
      if item.name != [] {
        named := true;
      }
      var drawn := IsDrawn(rows, top, maxDepth, item);
      assert named == AnyNamed(rows[..i + 1])
        && (UnstyledIn(pm, top, maxDepth, rows[..i + 1]) <==> drawn && !named) by {
        UnstyledStep(pm, top, maxDepth, rows, i);
      }
      if drawn && !named {
        assert Unstyled(rows, top, maxDepth) by {
          UnstyledPrefix(pm, top, maxDepth, rows, i + 1);
        }
        return Failure(StyleUnbound);
      }
      shown, nodes, edges := DrawNext(pm, top, maxDepth, rows, i, shown, nodes, edges, drawn);
    }
    assert rows[..|rows|] == rows;
    r := Success((nodes, edges));
  }

  /**
   * `build_hierarchy` of the structure page: the nodes, leaf-marked, and
   * the edges of the drawn rows, or the error a drawn row without a style
   * raises.
   */
  method BuildHierarchy(rows: seq<Row>, top: int, maxDepth: Option<int>)
    returns (r: Result<(seq<Node>, seq<Edge>), BuildError>)
    requires Acyclic(ParentMapOf(rows))
    ensures r.Failure? <==> Unstyled(rows, top, maxDepth)
    ensures r.Success? ==> r.value.1 == EdgesOf(top, Drawn(rows, top, maxDepth))
    ensures r.Success? ==> r.value.0 == Marked(NodesOf(top, Drawn(rows, top, maxDepth), Plain), Sources(r.value.1))
  {
    var drawn := DrawRows(rows, top, maxDepth);
    if drawn.Failure? {
      return Failure(drawn.error);
    }
    var (nodes, edges) := drawn.value;
    var marked := MarkNodes(nodes, edges);
    r := Success((marked, edges));
  }
}
