/**
 * The draft structure page (kept among the unused pages): committees are
 * drawn in rank order (SEKTOR first, AMG last), the diagram reports how
 * many nodes its widest level holds and how many levels it has, the
 * working-environment groups (AMG) under one parent are collapsed into one
 * row, and one tab is offered per child of the top committee that has
 * children of its own.
 */
module StructureDraft {
  import opened Wrappers
  import opened Text
  import opened Sorting
  import opened Hierarchy
  import opened Structure

  // ---------------------------------------------------------------------
  // Rank order
  // ---------------------------------------------------------------------

  /** `custom_sort`: 0 for a SEKTOR, 2 for an AMG (by prefix or suffix), 1 for the rest. */
  function Rank(name: string): (k: nat)
    ensures k <= 2
  {
    if StartsWith(name, "SEKTOR") then 0
    else if StartsWith(name, "AMG") || EndsWith(name, "AMG") then 2
    else 1
  }

  /** `key=custom_sort`: compare rows by rank. */
  predicate RankLe(a: Row, b: Row) {
    Rank(a.name) <= Rank(b.name)
  }

  /** `sorted(data, key=custom_sort)` */
  function Ranked(rows: seq<Row>): seq<Row> {
    SortBy(rows, RankLe)
  }

  /** The rows of one rank, in order. */
  function OfRank(rows: seq<Row>, k: nat): seq<Row> {
    if rows == [] then []
    else (if Rank(rows[0].name) == k then [rows[0]] else []) + OfRank(rows[1..], k)
  }

  /** The rows of rank `k` are exactly the rows whose name has that rank. */
  lemma {:induction false} OfRankMember(rows: seq<Row>, k: nat, x: Row)
    ensures x in OfRank(rows, k) <==> x in rows && Rank(x.name) == k
  {
    if rows != [] {
      OfRankMember(rows[1..], k, x);
      assert rows == [rows[0]] + rows[1..];
    }
  }

  /** Inserting a row adds it to its own rank's rows, in front of the rows of that rank. */
  lemma {:induction false} OfRankInsert(x: Row, ys: seq<Row>, k: nat)
    ensures OfRank(Insert(x, ys, RankLe), k) == (if Rank(x.name) == k then [x] else []) + OfRank(ys, k)
  {
    if ys == [] {
      assert Insert(x, ys, RankLe) == [x];
      assert [x][1..] == [];
    } else if RankLe(x, ys[0]) {
      var r := [x] + ys;
      assert Insert(x, ys, RankLe) == r;
      assert r[1..] == ys;
    } else {
      var rest := Insert(x, ys[1..], RankLe);
      OfRankInsert(x, ys[1..], k);
      var r := [ys[0]] + rest;
      assert Insert(x, ys, RankLe) == r;
      assert r[0] == ys[0] && r[1..] == rest;
      assert OfRank(r, k) == (if Rank(ys[0].name) == k then [ys[0]] else []) + OfRank(rest, k);
      assert OfRank(ys, k) == (if Rank(ys[0].name) == k then [ys[0]] else []) + OfRank(ys[1..], k);
      assert Rank(ys[0].name) < Rank(x.name);
    }
  }

  /**
   * The rank sort puts SEKTOR rows first and AMG rows last, loses and adds
   * no row, and keeps the rows of one rank in the order they came in
   * (Python's sort is stable).
   */
  lemma {:induction false} RankedOrder(rows: seq<Row>)
    ensures SortedBy(Ranked(rows), RankLe)
    ensures multiset(Ranked(rows)) == multiset(rows)
    ensures forall k: nat :: OfRank(Ranked(rows), k) == OfRank(rows, k)
  {
    assert TotalPreorder(RankLe);
    SortBySorted(rows, RankLe);
    forall k: nat
      ensures OfRank(Ranked(rows), k) == OfRank(rows, k)
    {
      RankStable(rows, k);
    }
  }

  lemma {:induction false} RankStable(rows: seq<Row>, k: nat)
    ensures OfRank(SortBy(rows, RankLe), k) == OfRank(rows, k)
  {
    if rows != [] {
      RankStable(rows[1..], k);
      OfRankInsert(rows[0], SortBy(rows[1..], RankLe), k);
    }
  }

  // ---------------------------------------------------------------------
  // The diagram and its size
  // ---------------------------------------------------------------------

  /** The node text of the draft page: the stripped name in bold. */
  function Bold(name: string): (r: string)
    ensures StartsWith(r, "**") && EndsWith(r, "**")
  {
    "**" + Strip(name) + "**"
  }

  /**
   * The level a drawn row sits at: 0 for the top committee, its level
   * below the top otherwise (0 too for a row that is not drawn).
   */
  function LevelOf(pm: ParentMap, top: int, r: Row): nat
    requires Acyclic(pm)
  {
    if r.id == top || r.parent.None? then 0
    else match LevelBelow(pm, top, r.parent.value)
      case None => 0
      case Some(d) => d
  }

  /**
   * The branches of the draft's `build_hierarchy` that decide whether a
   * row is drawn and at which level: the top committee always, at level 0;
   * a row without a parent never; otherwise a row whose parent walk
   * reaches the top within `maxDepth` levels, at the level the walk counts.
   */
  method DrawnAt(rows: seq<Row>, top: int, maxDepth: Option<int>, item: Row) returns (drawn: bool, depth: nat)
    requires Acyclic(ParentMapOf(rows))
    ensures drawn == Shown(ParentMapOf(rows), top, maxDepth, item)
    ensures drawn ==> depth == LevelOf(ParentMapOf(rows), top, item)
  {
    depth := 0;
    if item.id == top {
      drawn := true;
    } else if item.parent.None? {
      drawn := false;
    } else if maxDepth.Some? {
      var isDescendant;
      isDescendant, depth := DescendantDepth(rows, top, item.parent.value);
      drawn := isDescendant && depth <= maxDepth.value;
    } else {
      drawn := false;
    }
  }

  /** The levels of the drawn rows, in order. */
  function LevelsOf(pm: ParentMap, top: int, shown: seq<Row>): (levels: seq<nat>)
    requires Acyclic(pm)
    ensures |levels| == |shown|
  {
    if shown == [] then []
    else LevelsOf(pm, top, shown[..|shown| - 1]) + [LevelOf(pm, top, shown[|shown| - 1])]
  }

  /**
   * A drawn row is at level 0 exactly when it is the top committee, and
   * otherwise its parent is `level - 1` steps below the top, within the
   * depth asked for.
   */
  lemma {:induction false} LevelsAreDistances(pm: ParentMap, top: int, maxDepth: Option<int>, shown: seq<Row>, k: nat)
    requires Acyclic(pm)
    requires forall x | x in shown :: Shown(pm, top, maxDepth, x)
    requires k < |shown|
    ensures var d := LevelsOf(pm, top, shown)[k];
      && (d == 0 <==> shown[k].id == top)
      && (d > 0 ==> shown[k].parent.Some? && maxDepth.Some? && d <= maxDepth.value && Ancestor(pm, shown[k].parent.value, d - 1) == Some(top))
    decreases |shown|
  {
    var init := shown[..|shown| - 1];
    assert forall x | x in init :: x in shown;
    if k < |shown| - 1 {
      LevelsAreDistances(pm, top, maxDepth, init, k);
      assert init[k] == shown[k];
    } else {
      var x := shown[k];
      assert x in shown;
      if x.id != top {
        LevelIsAncestorDistance(pm, top, x.parent.value, LevelOf(pm, top, x));
      }
    }
  }

  /** The largest level, 0 when there is none. */
  function MaxLevel(levels: seq<nat>): (m: nat)
    ensures forall d | d in levels :: d <= m
    ensures levels != [] ==> m in levels
    ensures levels == [] ==> m == 0
  {
    if levels == [] then 0
    else
      var init := levels[..|levels| - 1];
      var last := levels[|levels| - 1];
      assert levels == init + [last];
      var m := MaxLevel(init);
      if m < last then last else m
  }

  /** The one-row step of the deepest level. */
  lemma MaxLevelStep(levels: seq<nat>, d: nat)
    ensures MaxLevel(levels + [d]) == if MaxLevel(levels) < d then d else MaxLevel(levels)
  {
    assert (levels + [d])[..|levels|] == levels;
  }

  /** `level_counts`: how many drawn rows sit at each level. */
  ghost predicate CountsLevels(counts: map<nat, nat>, levels: seq<nat>) {
    forall d: nat :: (d in counts <==> d in multiset(levels)) && (d in counts ==> counts[d] == multiset(levels)[d])
  }

  /** The draft diagram: nodes, edges, the widest level's node count and the number of levels. */
  datatype Diagram = Diagram(nodes: seq<Node>, edges: seq<Edge>, widest: nat, height: nat)

  /** `max(level_counts.values())` over a non-empty count map. */
  method MaxCount(counts: map<nat, nat>) returns (m: nat)
    requires counts != map[]
    ensures m in counts.Values
    ensures forall v | v in counts.Values :: v <= m
  {
    var keys := counts.Keys;
    NoElementsEmpty(keys);
    var first :| first in keys;
    m := counts[first];
    keys := keys - {first};
    while keys != {}
      invariant keys <= counts.Keys
      invariant m in counts.Values
      invariant forall k | k in counts.Keys && k !in keys :: counts[k] <= m
      decreases |keys|
    {
      NoElementsEmpty(keys);
      var k :| k in keys;
      if counts[k] > m {
        m := counts[k];
      }
      keys := keys - {k};
    }
  }

  /** The one-row step of the level count. */
  lemma CountStep(counts: map<nat, nat>, levels: seq<nat>, d: nat)
    requires CountsLevels(counts, levels)
    ensures CountsLevels(counts[d := if d in counts then counts[d] + 1 else 1], levels + [d])
  {
    assert multiset(levels + [d]) == multiset(levels) + multiset{d};
  }

  /** What the row loop of the draft's `build_hierarchy` leaves behind. */
  datatype Drawing = Drawing(nodes: seq<Node>, edges: seq<Edge>, levelCounts: map<nat, nat>, maxLevel: nat)

  /**
   * Drawing one more row: its node (typed 'input' for the top committee),
   * for any other row the edge from its parent, one more row counted at
   * its level, and the deepest level moved down to it.
   */
  method AddRow(ghost pm: ParentMap, top: int, ghost shown: seq<Row>, d: Drawing, item: Row, depth: nat)
    returns (next: Drawing)
    requires Acyclic(pm)
    requires d.nodes == NodesOf(top, shown, Bold)
    requires d.edges == EdgesOf(top, shown)
    requires CountsLevels(d.levelCounts, LevelsOf(pm, top, shown))
    requires d.maxLevel == MaxLevel(LevelsOf(pm, top, shown))
    requires depth == LevelOf(pm, top, item)
    requires item.id != top ==> item.parent.Some?
    ensures next.nodes == NodesOf(top, shown + [item], Bold)
    ensures next.edges == EdgesOf(top, shown + [item])
    ensures CountsLevels(next.levelCounts, LevelsOf(pm, top, shown + [item]))
    ensures next.maxLevel == MaxLevel(LevelsOf(pm, top, shown + [item]))
  {
    ghost var levels := LevelsOf(pm, top, shown);
    var counts := d.levelCounts[depth := if depth in d.levelCounts then d.levelCounts[depth] + 1 else 1];
    var maxLevel := d.maxLevel;
    var nodes, edges;
    if item.id == top {
      nodes := d.nodes + [Node(item.id, Input, Bold(item.name))];
      edges := d.edges;
    } else {
      nodes := d.nodes + [Node(item.id, Default, Bold(item.name))];
      edges := d.edges + [Edge(item.id, item.parent.value, item.id)];
      maxLevel := if d.maxLevel < depth then depth else d.maxLevel;
    }
    next := Drawing(nodes, edges, counts, maxLevel);
    assert LevelsOf(pm, top, shown + [item]) == levels + [depth] by {
      LevelsStep(pm, top, shown, item);
    }
    assert nodes == NodesOf(top, shown + [item], Bold) by {
      NodesOfStep(top, shown, item, Bold);
    }
    assert edges == EdgesOf(top, shown + [item]) by {
      EdgesOfStep(top, shown, item);
    }
    assert CountsLevels(counts, levels + [depth]) by {
      CountStep(d.levelCounts, levels, depth);
    }
    assert maxLevel == MaxLevel(levels + [depth]) by {
      MaxLevelStep(levels, depth);
    }
  }

  /**
   * The row loop of the draft's `build_hierarchy` over the ranked rows: a
   * node and (but for the top committee) an edge per drawn row, the number
   * of drawn rows per level, and the deepest level.
   */
  method DrawRankedRows(data: seq<Row>, top: int, maxDepth: Option<int>) returns (r: Result<Drawing, BuildError>)
    requires Acyclic(ParentMapOf(data))
    ensures r.Failure? <==> Unstyled(data, top, maxDepth)
    ensures r.Success? ==> r.value.nodes == NodesOf(top, Drawn(data, top, maxDepth), Bold)
    ensures r.Success? ==> r.value.edges == EdgesOf(top, Drawn(data, top, maxDepth))
    ensures r.Success? ==> CountsLevels(r.value.levelCounts, LevelsOf(ParentMapOf(data), top, Drawn(data, top, maxDepth)))
    ensures r.Success? ==> r.value.maxLevel == MaxLevel(LevelsOf(ParentMapOf(data), top, Drawn(data, top, maxDepth)))
  {
    ghost var pm := ParentMapOf(data);
    ghost var shown: seq<Row> := [];
    var drawing := Drawing([], [], map[], 0);
    var named := false;
    for i := 0 to |data|
      invariant shown == ShownRows(pm, top, maxDepth, data[..i])
      invariant drawing.nodes == NodesOf(top, shown, Bold)
      invariant drawing.edges == EdgesOf(top, shown)
      invariant CountsLevels(drawing.levelCounts, LevelsOf(pm, top, shown))
      invariant drawing.maxLevel == MaxLevel(LevelsOf(pm, top, shown))
      invariant named == AnyNamed(data[..i])
      invariant !UnstyledIn(pm, top, maxDepth, data[..i])
    {
      var item := data[i];
      if item.name != [] {
        named := true;
      }
      var drawn, depth := DrawnAt(data, top, maxDepth, item);
      UnstyledStep(pm, top, maxDepth, data, i);
      if drawn && !named {
        UnstyledPrefix(pm, top, maxDepth, data, i + 1);
        return Failure(StyleUnbound);
      }
      ShownRowsStep(pm, top, maxDepth, data, i);
      if drawn {
        drawing := AddRow(pm, top, shown, drawing, item, depth);
        shown := shown + [item];
      } else {
        assert shown + [] == shown;
      }
    }
    assert data[..|data|] == data;
    r := Success(drawing);
  }

  /**
   * `build_hierarchy` of the draft page: the rows are ranked first, then
   * drawn as on the structure page, counting the drawn rows per level.
   * The widest level's count is 0 and the height 1 when nothing is drawn.
   */
  method BuildRankedHierarchy(rows: seq<Row>, top: int, maxDepth: Option<int>)
    returns (r: Result<Diagram, BuildError>)
    requires Acyclic(ParentMapOf(Ranked(rows)))
    ensures r.Failure? <==> Unstyled(Ranked(rows), top, maxDepth)
    ensures r.Success? ==> r.value.edges == EdgesOf(top, Drawn(Ranked(rows), top, maxDepth))
    ensures r.Success? ==> r.value.nodes == Marked(NodesOf(top, Drawn(Ranked(rows), top, maxDepth), Bold), Sources(r.value.edges))
    ensures r.Success? ==>
      var levels := LevelsOf(ParentMapOf(Ranked(rows)), top, Drawn(Ranked(rows), top, maxDepth));
      && (levels == [] ==> r.value.widest == 0)
      && (levels != [] ==> exists d | d in levels :: multiset(levels)[d] == r.value.widest)
      && (forall d | d in levels :: multiset(levels)[d] <= r.value.widest)
      && r.value.height == MaxLevel(levels) + 1
  {
    var data := SortBy(rows, RankLe);
    var drawing := DrawRankedRows(data, top, maxDepth);
    if drawing.Failure? {
      return Failure(drawing.error);
    }
    var Drawing(nodes, edges, levelCounts, maxLevel) := drawing.value;
    ghost var levels := LevelsOf(ParentMapOf(data), top, Drawn(data, top, maxDepth));
    var marked := MarkNodes(nodes, edges);
    var widest, height := DiagramSize(levels, levelCounts, maxLevel);
    r := Success(Diagram(marked, edges, widest, height));
  }

  /**
   * The size figures of the draft's `build_hierarchy`: the node count of
   * the widest level (0 without any) and the number of levels (1 without
   * any counted level, the deepest level being 0 then).
   */
  method DiagramSize(ghost levels: seq<nat>, levelCounts: map<nat, nat>, maxLevel: nat) returns (widest: nat, height: nat)
    requires CountsLevels(levelCounts, levels)
    requires maxLevel == MaxLevel(levels)
    ensures levels == [] ==> widest == 0
    ensures levels != [] ==> exists d | d in levels :: multiset(levels)[d] == widest
    ensures forall d | d in levels :: multiset(levels)[d] <= widest
    ensures height == MaxLevel(levels) + 1
  {
    widest := 0;
    if levelCounts != map[] {
      widest := MaxCount(levelCounts);
    }
    height := if levelCounts != map[] then maxLevel + 1 else 1;
    WidestLevel(levelCounts, levels, widest);
  }

  lemma LevelsStep(pm: ParentMap, top: int, shown: seq<Row>, x: Row)
    requires Acyclic(pm)
    ensures LevelsOf(pm, top, shown + [x]) == LevelsOf(pm, top, shown) + [LevelOf(pm, top, x)]
  {
    assert (shown + [x])[..|shown|] == shown;
  }

  lemma WidestLevel(counts: map<nat, nat>, levels: seq<nat>, widest: nat)
    requires CountsLevels(counts, levels)
    requires counts == map[] ==> widest == 0
    requires counts != map[] ==> widest in counts.Values && forall v | v in counts.Values :: v <= widest
    ensures levels == [] ==> widest == 0
    ensures levels != [] ==> exists d | d in levels :: multiset(levels)[d] == widest
    ensures forall d | d in levels :: multiset(levels)[d] <= widest
  {
    if levels != [] {
      assert levels[0] in multiset(levels);
      assert levels[0] in counts;
      var d :| d in counts && counts[d] == widest;
      assert d in multiset(levels);
    } else {
      assert multiset(levels) == multiset{};
      if counts != map[] {
        var d :| d in counts;
      }
    }
    forall d | d in levels
      ensures multiset(levels)[d] <= widest
    {
      assert d in multiset(levels);
      assert counts[d] in counts.Values;
    }
  }

  /**
   * The diagram is never taller than the depth asked for plus the top
   * level; without a depth it has the top level only.
   */
  lemma HeightBounded(pm: ParentMap, top: int, maxDepth: Option<int>, shown: seq<Row>)
    requires Acyclic(pm)
    requires forall x | x in shown :: Shown(pm, top, maxDepth, x)
    ensures maxDepth.None? ==> MaxLevel(LevelsOf(pm, top, shown)) == 0
    ensures maxDepth.Some? ==> MaxLevel(LevelsOf(pm, top, shown)) <= if maxDepth.value < 0 then 0 else maxDepth.value
  {
    var levels := LevelsOf(pm, top, shown);
    var m := MaxLevel(levels);
    if m > 0 {
      var k :| 0 <= k < |levels| && levels[k] == m;
      LevelsAreDistances(pm, top, maxDepth, shown, k);
    }
  }

  // ---------------------------------------------------------------------
  // Collapsing the AMG rows
  // ---------------------------------------------------------------------

  const AmgType := "Arbejdsmiljøgruppe"

  predicate IsAmg(r: Row) {
    r.kind == Some(AmgType)
  }

  /** The parents of the AMG rows, each once, in the order first met (the dictionary's key order). */
  function AmgParents(rows: seq<Row>): (parents: seq<Option<int>>)
    ensures |parents| <= |rows|
  {
    if rows == [] then []
    else
      var init := rows[..|rows| - 1];
      var x := rows[|rows| - 1];
      var prev := AmgParents(init);
      if IsAmg(x) && x.parent !in prev then prev + [x.parent] else prev
  }

  /** The AMG rows under one parent, in order. */
  function AmgsUnder(rows: seq<Row>, p: Option<int>): (amgs: seq<Row>)
    ensures |amgs| <= |rows|
  {
    if rows == [] then []
    else
      var init := rows[..|rows| - 1];
      var x := rows[|rows| - 1];
      AmgsUnder(init, p) + (if IsAmg(x) && x.parent == p then [x] else [])
  }

  /** The rows that are not AMGs, in order. */
  function NonAmg(rows: seq<Row>): (r: seq<Row>)
    ensures |r| <= |rows|
  {
    if rows == [] then []
    else
      var init := rows[..|rows| - 1];
      var x := rows[|rows| - 1];
      NonAmg(init) + (if IsAmg(x) then [] else [x])
  }

  /** No parent is listed twice. */
  lemma {:induction false} AmgParentsDistinct(rows: seq<Row>)
    ensures forall i, j | 0 <= i < j < |AmgParents(rows)| :: AmgParents(rows)[i] != AmgParents(rows)[j]
  {
    if rows != [] {
      var init := rows[..|rows| - 1];
      var x := rows[|rows| - 1];
      AmgParentsDistinct(init);
      var prev := AmgParents(init);
      if IsAmg(x) && x.parent !in prev {
        var parents := prev + [x.parent];
        forall i, j | 0 <= i < j < |parents|
          ensures parents[i] != parents[j]
        {
          assert parents[i] == prev[i] && prev[i] in prev;
          if j < |prev| {
            assert parents[j] == prev[j];
          } else {
            assert parents[j] == x.parent;
          }
        }
        assert AmgParents(rows) == parents;
      } else {
        assert AmgParents(rows) == prev;
      }
    }
  }

  /** A parent is listed exactly when some AMG row names it. */
  lemma {:induction false} AmgParentsMember(rows: seq<Row>, p: Option<int>)
    ensures p in AmgParents(rows) <==> exists x | x in rows :: IsAmg(x) && x.parent == p
  {
    if rows != [] {
      var init := rows[..|rows| - 1];
      var x := rows[|rows| - 1];
      assert rows == init + [x];
      AmgParentsMember(init, p);
      if p in AmgParents(init) {
        var y :| y in init && IsAmg(y) && y.parent == p;
        assert y in rows;
      }
      if exists y | y in rows :: IsAmg(y) && y.parent == p {
        var y :| y in rows && IsAmg(y) && y.parent == p;
        if y != x {
          assert y in init;
        }
      }
    }
  }

  /** `AmgsUnder` holds exactly the AMG rows with that parent. */
  lemma {:induction false} AmgsUnderMember(rows: seq<Row>, p: Option<int>, x: Row)
    ensures x in AmgsUnder(rows, p) <==> x in rows && IsAmg(x) && x.parent == p
  {
    if rows != [] {
      var init := rows[..|rows| - 1];
      assert rows == init + [rows[|rows| - 1]];
      AmgsUnderMember(init, p, x);
    }
  }

  /** `NonAmg` holds exactly the rows that are not AMGs. */
  lemma {:induction false} NonAmgMember(rows: seq<Row>, x: Row)
    ensures x in NonAmg(rows) <==> x in rows && !IsAmg(x)
  {
    if rows != [] {
      var init := rows[..|rows| - 1];
      assert rows == init + [rows[|rows| - 1]];
      NonAmgMember(init, x);
    }
  }

  /** One more row adds itself to the AMGs under its own parent and changes no other list. */
  lemma AmgsUnderStep(rows: seq<Row>, i: nat, p: Option<int>)
    requires i < |rows|
    ensures AmgsUnder(rows[..i + 1], p)
      == AmgsUnder(rows[..i], p) + (if IsAmg(rows[i]) && rows[i].parent == p then [rows[i]] else [])
  {
    assert rows[..i + 1][..i] == rows[..i];
  }

  /** A parent not listed has no AMG row under it; a listed one has at least one. */
  lemma {:induction false} AmgsUnderListed(rows: seq<Row>, p: Option<int>)
    ensures p !in AmgParents(rows) <==> AmgsUnder(rows, p) == []
  {
    if rows != [] {
      AmgsUnderListed(rows[..|rows| - 1], p);
    }
  }

  /** Every AMG parent has at least one AMG row under it. */
  lemma AmgParentsHaveAmgs(rows: seq<Row>)
    ensures forall k | 0 <= k < |AmgParents(rows)| :: AmgsUnder(rows, AmgParents(rows)[k]) != []
  {
    var parents := AmgParents(rows);
    forall k | 0 <= k < |parents|
      ensures AmgsUnder(rows, parents[k]) != []
    {
      AmgsUnderListed(rows, parents[k]);
    }
  }

  /**
   * The row standing for the AMGs under one parent: the AMG itself when
   * there is one, otherwise the first with the name `"<n> AMG"`.
   */
  function Combined(amgs: seq<Row>): Row
    requires amgs != []
  {
    if |amgs| == 1 then amgs[0] else amgs[0].(name := NatToString(|amgs|) + " AMG")
  }

  /** The collapsed rows: one row per AMG parent, then every other row. */
  function Collapsed(rows: seq<Row>): (r: seq<Row>)
    // one row per AMG parent, then every other row in order
    ensures |r| == |AmgParents(rows)| + |NonAmg(rows)|
    ensures r[|AmgParents(rows)|..] == NonAmg(rows)
  {
    var parents := AmgParents(rows);
    AmgParentsHaveAmgs(rows);
    seq(|parents|, k requires 0 <= k < |parents| => Combined(AmgsUnder(rows, parents[k]))) + NonAmg(rows)
  }

  /**
   * The first loop of the collapsing code: the AMG rows grouped by parent
   * (a dictionary, with its keys in insertion order) and the other rows.
   */
  method GroupAmgs(rows: seq<Row>) returns (amgByParent: map<Option<int>, seq<Row>>, order: seq<Option<int>>, nonAmg: seq<Row>)
    ensures order == AmgParents(rows)
    ensures forall p :: p in amgByParent <==> p in order
    ensures forall p | p in amgByParent :: amgByParent[p] == AmgsUnder(rows, p)
    ensures nonAmg == NonAmg(rows)
  {
    amgByParent := map[];
    order := [];
    nonAmg := [];
    for i := 0 to |rows|
      invariant order == AmgParents(rows[..i])
      invariant forall p :: p in amgByParent <==> p in order
      invariant forall p | p in amgByParent :: amgByParent[p] == AmgsUnder(rows[..i], p)
      invariant nonAmg == NonAmg(rows[..i])
    {
      var item := rows[i];
      assert rows[..i + 1][..i] == rows[..i];
      if item.kind == Some(AmgType) {
        if item.parent in amgByParent {
          amgByParent := amgByParent[item.parent := amgByParent[item.parent] + [item]];
        } else {
          AmgsUnderListed(rows[..i], item.parent);
          amgByParent := amgByParent[item.parent := [item]];
          order := order + [item.parent];
        }
      } else {
        nonAmg := nonAmg + [item];
      }
      forall p | p in amgByParent
        ensures amgByParent[p] == AmgsUnder(rows[..i + 1], p)
      {
        AmgsUnderStep(rows, i, p);
      }
    }
    assert rows[..|rows|] == rows;
  }

  /** The collapsing code of the draft page. */
  method CollapseAmgs(rows: seq<Row>) returns (result: seq<Row>)
    ensures result == Collapsed(rows)
  {
    var amgByParent, order, nonAmg := GroupAmgs(rows);
    AmgParentsHaveAmgs(rows);
    ghost var combined := Collapsed(rows)[..|order|];
    result := [];
    for k := 0 to |order|
      invariant result == combined[..k]
    {
      var parent := order[k];
      var amgs := amgByParent[parent];
      assert combined[k] == Combined(amgs);
      if |amgs| == 1 {
        result := result + [amgs[0]];
      } else if |amgs| > 1 {
        result := result + [amgs[0].(name := NatToString(|amgs|) + " AMG")];
      }
      assert combined[..k + 1] == combined[..k] + [Combined(amgs)];
    }
    assert combined[..|order|] == combined;
    result := result + nonAmg;
  }

  /**
   * After collapsing, every AMG parent has exactly one AMG row, the first
   * AMG under it (renamed `"<n> AMG"` when it stands for n > 1 of them,
   * n being recoverable from the name), and the other rows follow in their
   * order.
   */
  lemma CollapsedShape(rows: seq<Row>)
    ensures var parents := AmgParents(rows);
      && |Collapsed(rows)| == |parents| + |NonAmg(rows)|
      && Collapsed(rows)[|parents|..] == NonAmg(rows)
      && forall k | 0 <= k < |parents| ::
        var amgs := AmgsUnder(rows, parents[k]);
        && amgs != []
        && Collapsed(rows)[k].id == amgs[0].id
        && Collapsed(rows)[k].parent == parents[k]
        && IsAmg(Collapsed(rows)[k])
        && (|amgs| == 1 ==> Collapsed(rows)[k] == amgs[0])
        && (|amgs| > 1 ==> Collapsed(rows)[k].name == NatToString(|amgs|) + " AMG"
                           && DigitsValue(NatToString(|amgs|)) == |amgs|)
  {
    var parents := AmgParents(rows);
    AmgParentsHaveAmgs(rows);
    var amgPart := seq(|parents|, k requires 0 <= k < |parents| => Combined(AmgsUnder(rows, parents[k])));
    assert Collapsed(rows) == amgPart + NonAmg(rows);
    assert Collapsed(rows)[|parents|..] == NonAmg(rows);
    forall k | 0 <= k < |parents|
      ensures DigitsValue(NatToString(|AmgsUnder(rows, parents[k])|)) == |AmgsUnder(rows, parents[k])|
      ensures IsAmg(Collapsed(rows)[k]) && Collapsed(rows)[k].parent == parents[k]
    {
      var amgs := AmgsUnder(rows, parents[k]);
      NatToStringRoundTrip(|amgs|);
      assert amgs[0] in amgs;
      AmgsUnderMember(rows, parents[k], amgs[0]);
    }
  }

  /** A combined row's name ends with "AMG", so the rank sort puts it last, like a single AMG named so. */
  lemma CombinedRanksLast(n: nat)
    requires n > 1
    ensures Rank(NatToString(n) + " AMG") == 2
  {
    var s := NatToString(n) + " AMG";
    assert s[|s| - 3..] == "AMG";
    assert s[0] != 'S';
  }

  // ---------------------------------------------------------------------
  // The tabs
  // ---------------------------------------------------------------------

  /** `not u['overordnetudvalg']`: a NULL parent, or parent id 0. */
  predicate NoParent(r: Row) {
    r.parent.None? || r.parent == Some(0)
  }

  /** The position of the first row without a parent, or `|rows|` when every row has one. */
  function FirstTopIndex(rows: seq<Row>): (i: nat)
    ensures i <= |rows|
    ensures i < |rows| ==> NoParent(rows[i])
    ensures forall j | 0 <= j < i :: !NoParent(rows[j])
  {
    if rows == [] || NoParent(rows[0]) then 0
    else
      var i := 1 + FirstTopIndex(rows[1..]);
      assert forall j | 1 <= j < i :: rows[j] == rows[1..][j - 1];
      i
  }

  /** `next((u for u in data if not u['overordnetudvalg']), None)`: the first row without a parent. */
  function TopCommittee(rows: seq<Row>): (t: Option<Row>)
    ensures t.None? <==> forall x | x in rows :: !NoParent(x)
    ensures t.Some? ==> exists i | 0 <= i < |rows| ::
      rows[i] == t.value && NoParent(rows[i]) && forall j | 0 <= j < i :: !NoParent(rows[j])
  {
    var i := FirstTopIndex(rows);
    if i < |rows| then Some(rows[i]) else None
  }

  /** The ids some row names as its parent. */
  function ParentIds(rows: seq<Row>): set<int> {
    set x | x in rows && x.parent.Some? :: x.parent.value
  }

  /** The children of `top` that are some row's parent, in order. */
  function ChildrenWithChildren(rows: seq<Row>, all: seq<Row>, top: int): (r: seq<Row>)
    ensures forall x :: x in r <==> x in rows && x.parent == Some(top) && x.id in ParentIds(all)
  {
    if rows == [] then []
    else
      assert rows == [rows[0]] + rows[1..];
      (if rows[0].parent == Some(top) && rows[0].id in ParentIds(all) then [rows[0]] else [])
      + ChildrenWithChildren(rows[1..], all, top)
  }

  /**
   * `important_udvalg`: the children of the top committee that have
   * children, ranked; None when there is no top committee (the page then
   * fails reading the top committee's id).
   */
  function ImportantCommittees(rows: seq<Row>): (r: Option<seq<Row>>)
    ensures r.None? <==> TopCommittee(rows).None?
    ensures r.Some? ==> multiset(r.value) == multiset(ChildrenWithChildren(rows, rows, TopCommittee(rows).value.id))
  {
    match TopCommittee(rows)
    case None => None
    case Some(t) => Some(Ranked(ChildrenWithChildren(rows, rows, t.id)))
  }

  /**
   * The tabs after the top committee are exactly its children that are
   * some committee's parent, each as often as it occurs, SEKTOR rows
   * first and AMG rows last.
   */
  lemma ImportantAreParents(rows: seq<Row>)
    requires TopCommittee(rows).Some?
    ensures var t := TopCommittee(rows).value;
      var important := ImportantCommittees(rows).value;
      && SortedBy(important, RankLe)
      && multiset(important) == multiset(ChildrenWithChildren(rows, rows, t.id))
      && forall x :: x in important <==>
        x in rows && x.parent == Some(t.id) && exists y | y in rows :: y.parent == Some(x.id)
  {
    var t := TopCommittee(rows).value;
    var children := ChildrenWithChildren(rows, rows, t.id);
    RankedOrder(children);
    var important := Ranked(children);
    forall x
      ensures x in important <==> x in rows && x.parent == Some(t.id) && exists y | y in rows :: y.parent == Some(x.id)
    {
      assert x in important <==> x in multiset(important);
      assert x in children <==> x in multiset(children);
      if x in rows && exists y | y in rows :: y.parent == Some(x.id) {
        var y :| y in rows && y.parent == Some(x.id);
        assert x.id in ParentIds(rows);
      }
    }
  }
}
