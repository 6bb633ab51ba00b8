/**
 * The committee selection in the sidebar tree.
 *
 * The tree component reports the list of checked committee ids on every
 * run of a page. The page keeps `checked_nodes` and `expanded_nodes` in its
 * session and reacts with a fixed sequence of `if`s: an empty report clears
 * both lists (on the main page and the front page; the first app has no
 * such branch), a report of two ids is filtered against the previous
 * selection, a single id becomes the selection and its ancestor path is
 * expanded, two remaining ids keep the later one, and more than two clear
 * the selection with a warning. Every change of the selection reruns the
 * page.
 */
module Selection {
  import opened Wrappers
  import opened Hierarchy

  /** The two session lists. */
  datatype SelState = SelState(checked: seq<int>, expanded: seq<int>)

  /** The new session, whether the page reruns and whether it warned. */
  datatype Outcome = Outcome(state: SelState, rerun: bool, warning: bool)

  /** `[node for node in xs if node not in excluded]` */
  function Without(xs: seq<int>, excluded: seq<int>): (r: seq<int>)
    ensures |r| <= |xs|
    ensures forall x :: x in r <==> x in xs && x !in excluded
  {
    if xs == [] then []
    else if xs[0] in excluded then Without(xs[1..], excluded)
    else [xs[0]] + Without(xs[1..], excluded)
  }

  /**
   * The ids the page goes on with: a report of exactly two ids loses the
   * ones already checked; any other report is taken as it is.
   */
  function Remaining(s: SelState, report: seq<int>): seq<int> {
    if |report| == 2 then Without(report, s.checked) else report
  }

  /** One run of the selection code for a report of the tree component. */
  function Next(s: SelState, report: seq<int>, pm: ParentMap, clearsOnEmpty: bool): (r: Outcome)
    requires Acyclic(pm)
    // the session never holds more than one checked id
    ensures |s.checked| <= 1 ==> |r.state.checked| <= 1
    // the page warns exactly when more than two ids remain, and then clears the selection
    ensures r.warning <==> |Remaining(s, report)| > 2
    ensures r.warning ==> r.state.checked == [] && r.rerun
    // nothing remaining: an empty report clears where the page does so, otherwise the session stays
    ensures Remaining(s, report) == [] ==>
      r.state == (if clearsOnEmpty && report == [] then SelState([], []) else s)
    // a single remaining id is selected with its ancestors expanded
    ensures |Remaining(s, report)| == 1 ==>
      r.state == SelState(Remaining(s, report), Chain(pm, Remaining(s, report)[0]))
    // two remaining ids: the later one is selected and the expanded path stays
    ensures |Remaining(s, report)| == 2 ==> r.state == SelState([Remaining(s, report)[1]], s.expanded)
    // more than two: the selection is cleared and the expanded path stays
    ensures |Remaining(s, report)| > 2 ==> r.state == SelState([], s.expanded)
    // the page reruns exactly when the selection was replaced
    ensures r.rerun <==> (|Remaining(s, report)| == 1 && Remaining(s, report) != s.checked) || |Remaining(s, report)| >= 2
  {
    var s1 := if clearsOnEmpty && |report| == 0 then SelState([], []) else s;
    var nc := Remaining(s, report);
    var s2 := if |nc| == 1 then s1.(expanded := Chain(pm, nc[0])) else s1;
    if |nc| == 1 && nc != s2.checked then Outcome(s2.(checked := nc), true, false)
    else if |nc| == 2 then Outcome(s2.(checked := [nc[1]]), true, false)
    else if |nc| > 2 then Outcome(s2.(checked := []), true, true)
    else Outcome(s2, false, false)
  }

  /**
   * An empty report clears both lists on the main page and the front page
   * and changes nothing on the first app; neither reruns.
   */
  lemma EmptyReport(s: SelState, pm: ParentMap, clearsOnEmpty: bool)
    requires Acyclic(pm)
    ensures Next(s, [], pm, clearsOnEmpty) ==
      Outcome(if clearsOnEmpty then SelState([], []) else s, false, false)
  {
  }

  /**
   * Checking a second committee next to the selected one moves the
   * selection to the new committee and expands its ancestors.
   */
  lemma SecondCheckMovesSelection(previous: int, chosen: int, expanded: seq<int>, pm: ParentMap, clearsOnEmpty: bool, newFirst: bool)
    requires Acyclic(pm)
    requires previous != chosen
    ensures var report := if newFirst then [chosen, previous] else [previous, chosen];
      Next(SelState([previous], expanded), report, pm, clearsOnEmpty) ==
      Outcome(SelState([chosen], Chain(pm, chosen)), true, false)
  {
    var report := if newFirst then [chosen, previous] else [previous, chosen];
    assert Without(report, [previous]) == [chosen];
  }

  /**
   * Two checked committees of which neither was selected: the later one in
   * the report is kept, the expanded path is left as it was.
   */
  lemma TwoNewKeepsLast(s: SelState, a: int, b: int, pm: ParentMap, clearsOnEmpty: bool)
    requires Acyclic(pm)
    requires a != b && a !in s.checked && b !in s.checked
    ensures Next(s, [a, b], pm, clearsOnEmpty) == Outcome(s.(checked := [b]), true, false)
  {
    assert Without([a, b], s.checked) == [a, b];
  }

  /**
   * A settled session: at most one checked committee, its ancestors
   * expanded, and nothing expanded without a selection on the pages that
   * clear on an empty report.
   */
  ghost predicate Settled(s: SelState, pm: ParentMap, clearsOnEmpty: bool)
    requires Acyclic(pm)
  {
    && |s.checked| <= 1
    && (s.checked != [] ==> s.expanded == Chain(pm, s.checked[0]))
    && (clearsOnEmpty && s.checked == [] ==> s.expanded == [])
  }

  /**
   * After a rerun the component reports the session's own checked list.
   * That run keeps the selection, never reruns again and leaves the session
   * settled, so one change of selection costs at most one rerun.
   */
  lemma OwnReportSettles(s: SelState, pm: ParentMap, clearsOnEmpty: bool)
    requires Acyclic(pm)
    requires |s.checked| <= 1
    ensures var r := Next(s, s.checked, pm, clearsOnEmpty);
      !r.rerun && r.state.checked == s.checked && Settled(r.state, pm, clearsOnEmpty)
  {
  }

  /** A settled session is a fixpoint of the selection code. */
  lemma SettledIsFixpoint(s: SelState, pm: ParentMap, clearsOnEmpty: bool)
    requires Acyclic(pm)
    requires Settled(s, pm, clearsOnEmpty)
    ensures Next(s, s.checked, pm, clearsOnEmpty) == Outcome(s, false, false)
  {
  }

  /**
   * The walk `while current is not None: expanded.append(current);
   * current = parent_map.get(current)`.
   */
  method ExpandPath(pm: ParentMap, c: int) returns (path: seq<int>)
    requires Acyclic(pm)
    ensures path == Chain(pm, c)
    ensures IsAncestorPath(pm, c, path)
  {
    path := [];
    var current: Option<int> := Some(c);
    while current.Some?
      invariant current.Some? ==> path + Chain(pm, current.value) == Chain(pm, c)
      invariant current.None? ==> path == Chain(pm, c)
      decreases if current.Some? then |Chain(pm, current.value)| else 0
    {
      var node := current.value;
      ChainStep(pm, node);
      path := path + [node];
      current := Lookup(pm, node);
    }
    ChainCharacterization(pm, c, path);
  }

  /**
   * The same walk on the front page and in the first app, which find the
   * parent by scanning the rows for the first one with the current id.
   */
  method ExpandPathByScan(rows: seq<Row>, c: int) returns (path: seq<int>)
    requires Acyclic(ParentMapOf(rows))
    ensures path == Chain(ParentMapOf(rows), c)
  {
    ghost var pm := ParentMapOf(rows);
    path := [];
    var current: Option<int> := Some(c);
    while current.Some?
      invariant current.Some? ==> path + Chain(pm, current.value) == Chain(pm, c)
      invariant current.None? ==> path == Chain(pm, c)
      decreases if current.Some? then |Chain(pm, current.value)| else 0
    {
      var node := current.value;
      ChainStep(pm, node);
      ScanIsLookup(rows, node);
      path := path + [node];
      current := ScanParent(rows, node);
    }
  }

  /** The session lists of one browser session. */
  class Session {
    var checked: seq<int>
    var expanded: seq<int>

    function State(): SelState
      reads this
    {
      SelState(checked, expanded)
    }

    constructor()
      ensures checked == [] && expanded == []
    {
      checked, expanded := [], [];
    }

    /**
     * The main page's selection code: ids resolved through the parent map
     * of `get_committee_tree`, an empty report clears.
     */
    method Report(report: seq<int>, pm: ParentMap) returns (rerun: bool, warning: bool)
      requires Acyclic(pm)
      modifies this
      ensures Outcome(State(), rerun, warning) == Next(old(State()), report, pm, true)
    {
      rerun, warning := false, false;
      var nodes := report;
      if |nodes| == 0 {
        checked, expanded := [], [];
      }
      if |nodes| == 2 {
        nodes := Without(nodes, checked);
      }
      if |nodes| == 1 {
        expanded := ExpandPath(pm, nodes[0]);
      }
      if |nodes| == 1 && nodes != checked {
        checked := nodes;
        rerun := true;
        return;
      }
      if |nodes| == 2 {
        checked := [nodes[1]];
        rerun := true;
        return;
      }
      if |nodes| > 2 {
        warning := true;
        checked := [];
        rerun := true;
        return;
      }
    }

    /**
     * The front page's and the first app's selection code: parents found by
     * scanning the rows; the first app does not clear on an empty report.
     */
    method ReportByScan(report: seq<int>, rows: seq<Row>, clearsOnEmpty: bool) returns (rerun: bool, warning: bool)
      requires Acyclic(ParentMapOf(rows))
      modifies this
      ensures Outcome(State(), rerun, warning) == Next(old(State()), report, ParentMapOf(rows), clearsOnEmpty)
    {
      rerun, warning := false, false;
      var nodes := report;
      if clearsOnEmpty && |nodes| == 0 {
        checked, expanded := [], [];
      }
      if |nodes| == 2 {
        nodes := Without(nodes, checked);
      }
      if |nodes| == 1 {
        expanded := ExpandPathByScan(rows, nodes[0]);
      }
      if |nodes| == 1 && nodes != checked {
        checked := nodes;
        rerun := true;
        return;
      }
      if |nodes| == 2 {
        checked := [nodes[1]];
        rerun := true;
        return;
      }
      if |nodes| > 2 {
        warning := true;
        checked := [];
        rerun := true;
        return;
      }
    }

    /**
     * Choosing a committee among the search results of the main page: it
     * becomes the only checked committee and its ancestors are expanded.
     */
    method SearchSelect(value: int, pm: ParentMap)
      requires Acyclic(pm)
      modifies this
      ensures checked == [value] && expanded == Chain(pm, value)
      ensures Settled(State(), pm, true)
    {
      checked := [value];
      expanded := ExpandPath(pm, value);
    }
  }
}
