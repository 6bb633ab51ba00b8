/**
 * Parent pointers between committees and the walk up from a committee to
 * its top-level ancestor.
 *
 * Every page keeps committees as rows `(id, parent, name, type)` and walks
 * `parent` pointers upwards with `while current is not None`, either through
 * a `parent_map` dictionary (`dict.get`, so an unknown id yields None) or by
 * scanning the rows for the first one with that id. The walk ends only when
 * the pointers reachable from the start contain no cycle, so acyclicity is a
 * precondition wherever the model walks.
 */
module Hierarchy {
  import opened Wrappers

  /** One committee row: id, parent id (NULL = top level), name, type name. */
  datatype Row = Row(id: int, parent: Option<int>, name: string, kind: Option<string>)

  /** `parent_map`: committee id to parent id. */
  type ParentMap = map<int, Option<int>>

  /** `parent_map.get(c)`: an id the map does not know has no parent. */
  function Lookup(pm: ParentMap, c: int): Option<int> {
    if c in pm then pm[c] else None
  }

  /**
   * The ancestor path the pages build, starting at `c`, with at most `fuel`
   * steps; None when the fuel runs out (which only a cycle forces).
   */
  function Walk(pm: ParentMap, c: int, fuel: nat): Option<seq<int>>
    decreases fuel
  {
    if fuel == 0 then None
    else match Lookup(pm, c)
      case None => Some([c])
      case Some(p) =>
        match Walk(pm, p, fuel - 1)
        case None => None
        case Some(rest) => Some([c] + rest)
  }

  /**
   * Parent pointers are acyclic: from every committee the walk reaches a
   * committee without a (known) parent within |pm| + 1 steps.
   */
  ghost predicate Acyclic(pm: ParentMap) {
    forall c | c in pm :: Walk(pm, c, |pm| + 1).Some?
  }

  lemma WalkFromUnknown(pm: ParentMap, c: int, fuel: nat)
    requires c !in pm && fuel > 0
    ensures Walk(pm, c, fuel) == Some([c])
  {
  }

  /** More fuel never changes a walk that already finished. */
  lemma {:induction false} WalkMoreFuel(pm: ParentMap, c: int, fuel: nat, more: nat)
    requires Walk(pm, c, fuel).Some?
    requires fuel <= more
    ensures Walk(pm, c, more) == Walk(pm, c, fuel)
    decreases fuel
  {
    if Lookup(pm, c).Some? {
      WalkMoreFuel(pm, Lookup(pm, c).value, fuel - 1, more - 1);
    }
  }

  /** The walk from any id terminates when the pointers are acyclic. */
  lemma WalkTerminates(pm: ParentMap, c: int)
    requires Acyclic(pm)
    ensures Walk(pm, c, |pm| + 1).Some?
  {
    if c !in pm {
      WalkFromUnknown(pm, c, |pm| + 1);
    }
  }

  /** The full ancestor path of `c`: `[c, parent(c), parent(parent(c)), ...]`. */
  function Chain(pm: ParentMap, c: int): (path: seq<int>)
    requires Acyclic(pm)
    ensures |path| > 0 && path[0] == c
  {
    WalkTerminates(pm, c);
    WalkShape(pm, c, |pm| + 1);
    Walk(pm, c, |pm| + 1).value
  }

  /**
   * `path` is the ancestor path of `c`: it starts at `c`, each next element
   * is the parent of the previous one, and it stops at the first element
   * whose parent is None (a dangling parent id is therefore the last element).
   */
  ghost predicate IsAncestorPath(pm: ParentMap, c: int, path: seq<int>) {
    |path| > 0 && path[0] == c
    && (forall i | 0 <= i < |path| - 1 :: Lookup(pm, path[i]) == Some(path[i + 1]))
    && Lookup(pm, path[|path| - 1]) == None
  }

  lemma {:induction false} WalkShape(pm: ParentMap, c: int, fuel: nat)
    requires Walk(pm, c, fuel).Some?
    ensures IsAncestorPath(pm, c, Walk(pm, c, fuel).value)
    ensures |Walk(pm, c, fuel).value| <= fuel
    decreases fuel
  {
    if Lookup(pm, c).Some? {
      var p := Lookup(pm, c).value;
      WalkShape(pm, p, fuel - 1);
      var rest := Walk(pm, p, fuel - 1).value;
      var path := [c] + rest;
      forall i | 0 <= i < |path| - 1
        ensures Lookup(pm, path[i]) == Some(path[i + 1])
      {
        if i > 0 {
          assert path[i] == rest[i - 1] && path[i + 1] == rest[i];
        }
      }
    }
  }

  /** An ancestor path is exactly what the walk produces with that much fuel. */
  lemma {:induction false} AncestorPathIsWalk(pm: ParentMap, c: int, path: seq<int>)
    requires IsAncestorPath(pm, c, path)
    ensures Walk(pm, c, |path|) == Some(path)
    decreases |path|
  {
    if |path| > 1 {
      var rest := path[1..];
      assert IsAncestorPath(pm, path[1], rest) by {
        forall i | 0 <= i < |rest| - 1
          ensures Lookup(pm, rest[i]) == Some(rest[i + 1])
        {
          assert Lookup(pm, path[i + 1]) == Some(path[i + 2]);
        }
      }
      AncestorPathIsWalk(pm, path[1], rest);
      assert path == [c] + rest;
    } else {
      assert path == [c];
    }
  }

  /**
   * The chain of `c` is the one and only ancestor path of `c`: the walk in
   * the pages computes exactly the sequence the three rules describe.
   */
  lemma ChainCharacterization(pm: ParentMap, c: int, path: seq<int>)
    requires Acyclic(pm)
    ensures IsAncestorPath(pm, c, path) <==> path == Chain(pm, c)
  {
    WalkTerminates(pm, c);
    WalkShape(pm, c, |pm| + 1);
    if IsAncestorPath(pm, c, path) {
      AncestorPathIsWalk(pm, c, path);
      var f := |pm| + 1;
      if |path| <= f {
        WalkMoreFuel(pm, c, |path|, f);
      } else {
        WalkMoreFuel(pm, c, f, |path|);
      }
    }
  }

  /** One step of the chain: a committee followed by its parent's chain. */
  lemma ChainStep(pm: ParentMap, c: int)
    requires Acyclic(pm)
    ensures Lookup(pm, c).None? ==> Chain(pm, c) == [c]
    ensures Lookup(pm, c).Some? ==> Chain(pm, c) == [c] + Chain(pm, Lookup(pm, c).value)
  {
    if Lookup(pm, c).Some? {
      var p := Lookup(pm, c).value;
      var rest := Chain(pm, p);
      ChainCharacterization(pm, p, rest);
      var path := [c] + rest;
      assert IsAncestorPath(pm, c, path) by {
        forall i | 0 <= i < |path| - 1
          ensures Lookup(pm, path[i]) == Some(path[i + 1])
        {
          if i > 0 {
            assert path[i] == rest[i - 1] && path[i + 1] == rest[i];
          }
        }
      }
      ChainCharacterization(pm, c, path);
    } else {
      ChainCharacterization(pm, c, [c]);
    }
  }

  /** An ancestor path never visits a committee twice. */
  lemma {:induction false} AncestorPathDistinct(pm: ParentMap, c: int, path: seq<int>, i: int, j: int)
    requires IsAncestorPath(pm, c, path)
    requires 0 <= i < j < |path|
    ensures path[i] != path[j]
    decreases |path| - j
  {
    if j < |path| - 1 {
      AncestorPathDistinct(pm, c, path, i + 1, j + 1);
      assert Lookup(pm, path[i]) == Some(path[i + 1]);
      assert Lookup(pm, path[j]) == Some(path[j + 1]);
    } else {
      assert Lookup(pm, path[i]) == Some(path[i + 1]);
    }
  }

  /** The elements of a repetition-free sequence are as many as its length. */
  lemma {:induction false} DistinctCard(xs: seq<int>)
    requires forall i, j | 0 <= i < j < |xs| :: xs[i] != xs[j]
    ensures |set x | x in xs| == |xs|
  {
    if xs != [] {
      var rest := xs[1..];
      DistinctCard(rest);
      assert (set x | x in xs) == {xs[0]} + (set x | x in rest);
      assert xs[0] !in rest by {
        forall k | 0 <= k < |rest|
          ensures rest[k] != xs[0]
        {
          assert rest[k] == xs[k + 1];
        }
      }
    }
  }

  /** Every element of an ancestor path but the last is a key of the map, so the path is short. */
  lemma AncestorPathBounded(pm: ParentMap, c: int, path: seq<int>)
    requires IsAncestorPath(pm, c, path)
    ensures |path| <= |pm| + 1
  {
    var front := path[..|path| - 1];
    forall i, j | 0 <= i < j < |front|
      ensures front[i] != front[j]
    {
      AncestorPathDistinct(pm, c, path, i, j);
    }
    DistinctCard(front);
    var elems := set x | x in front;
    forall x | x in elems
      ensures x in pm
    {
      var k :| 0 <= k < |front| && front[k] == x;
      assert Lookup(pm, path[k]) == Some(path[k + 1]);
    }
    assert elems <= pm.Keys;
    SubsetCard(elems, pm.Keys);
  }

  lemma {:induction false} SubsetCard(a: set<int>, b: set<int>)
    requires a <= b
    ensures |a| <= |b|
  {
    if a != {} {
      NoElementsEmpty(a);
      var x :| x in a;
      SubsetCard(a - {x}, b - {x});
    }
  }

  lemma NoElementsEmpty(s: set<int>)
    ensures (forall x :: x !in s) ==> |s| == 0
  {
    if forall x :: x !in s {
      assert s == {};
    }
  }

  /** Whoever has an ancestor path finishes the walk within the fuel acyclicity grants. */
  lemma AncestorPathTerminates(pm: ParentMap, c: int, path: seq<int>)
    requires IsAncestorPath(pm, c, path)
    ensures Walk(pm, c, |pm| + 1) == Some(path)
  {
    AncestorPathBounded(pm, c, path);
    AncestorPathIsWalk(pm, c, path);
    WalkMoreFuel(pm, c, |path|, |pm| + 1);
  }

  /** Parent steps from `x` to `c`, followed by an ancestor path of `c`, form an ancestor path of `x`. */
  lemma ConcatAncestorPath(pm: ParentMap, x: int, pre: seq<int>, c: int, tail: seq<int>)
    requires pre == [] ==> x == c
    requires pre != [] ==> pre[0] == x && Lookup(pm, pre[|pre| - 1]) == Some(c)
    requires forall i | 0 <= i < |pre| - 1 :: Lookup(pm, pre[i]) == Some(pre[i + 1])
    requires IsAncestorPath(pm, c, tail)
    ensures IsAncestorPath(pm, x, pre + tail)
  {
    var path := pre + tail;
    forall i | 0 <= i < |path| - 1
      ensures Lookup(pm, path[i]) == Some(path[i + 1])
    {
      if i < |pre| - 1 {
        assert path[i] == pre[i] && path[i + 1] == pre[i + 1];
      } else if i == |pre| - 1 {
        assert path[i] == pre[i] && path[i + 1] == tail[0];
      } else {
        assert path[i] == tail[i - |pre|] && path[i + 1] == tail[i - |pre| + 1];
      }
    }
    assert path[|path| - 1] == tail[|tail| - 1];
  }

  /** A path that avoids `c` is still an ancestor path once `c` is re-parented. */
  lemma AvoidingPathSurvives(pm: ParentMap, x: int, path: seq<int>, c: int, np: Option<int>)
    requires IsAncestorPath(pm, x, path)
    requires c !in path
    ensures IsAncestorPath(pm[c := np], x, path)
  {
    var pm' := pm[c := np];
    forall i | 0 <= i < |path|
      ensures Lookup(pm', path[i]) == Lookup(pm, path[i])
    {
      assert path[i] != c;
    }
  }

  /**
   * Moving committee `c` under `np` keeps the parent pointers acyclic
   * exactly when `np` is not `c` itself or one of its descendants, that is
   * when `c` is not on the chain of `np`; moving it to the top level always
   * keeps them acyclic.
   */
  lemma ReparentPreservesAcyclic(pm: ParentMap, c: int, np: Option<int>)
    requires Acyclic(pm)
    requires np.Some? ==> c !in Chain(pm, np.value)
    ensures Acyclic(pm[c := np])
  {
    MovedChainIsPath(pm, c, np);
    var moved := pm[c := np];
    forall x | x in moved
      ensures Walk(moved, x, |moved| + 1).Some?
    {
      MovedWalkEnds(pm, c, np, x);
    }
  }

  /** The ancestor path of a moved committee: itself, then the chain of its new parent. */
  ghost function MovedChain(pm: ParentMap, c: int, np: Option<int>): seq<int>
    requires Acyclic(pm)
  {
    if np.None? then [c] else [c] + Chain(pm, np.value)
  }

  lemma MovedChainIsPath(pm: ParentMap, c: int, np: Option<int>)
    requires Acyclic(pm)
    requires np.Some? ==> c !in Chain(pm, np.value)
    ensures IsAncestorPath(pm[c := np], c, MovedChain(pm, c, np))
  {
    if np.Some? {
      var up := Chain(pm, np.value);
      ChainCharacterization(pm, np.value, up);
      AvoidingPathSurvives(pm, np.value, up, c, np);
      ConcatAncestorPath(pm[c := np], c, [c], np.value, up);
    }
  }

  /** After the move, the walk from any committee still ends. */
  lemma MovedWalkEnds(pm: ParentMap, c: int, np: Option<int>, x: int)
    requires Acyclic(pm)
    requires np.Some? ==> c !in Chain(pm, np.value)
    requires IsAncestorPath(pm[c := np], c, MovedChain(pm, c, np))
    ensures Walk(pm[c := np], x, |pm[c := np]| + 1).Some?
  {
    var pm' := pm[c := np];
    var ch := Chain(pm, x);
    ChainCharacterization(pm, x, ch);
    if c !in ch {
      AvoidingPathSurvives(pm, x, ch, c, np);
      AncestorPathTerminates(pm', x, ch);
    } else {
      var k := FirstIndex(ch, c);
      var pre := ch[..k];
      forall i | 0 <= i < |pre|
        ensures Lookup(pm', pre[i]) == Some(ch[i + 1])
      {
        assert pre[i] == ch[i] != c;
      }
      ConcatAncestorPath(pm', x, pre, c, MovedChain(pm, c, np));
      AncestorPathTerminates(pm', x, pre + MovedChain(pm, c, np));
    }
  }

  /**
   * Deleting committee `d`: its row goes and its children become top-level
   * committees (ON DELETE SET NULL, or the explicit UPDATE before the DELETE).
   */
  function Detach(pm: ParentMap, d: int): (r: ParentMap)
    ensures r.Keys == pm.Keys - {d}
  {
    map c | c in pm && c != d :: if pm[c] == Some(d) then None else pm[c]
  }

  /** Deleting a committee never creates a cycle. */
  lemma DetachPreservesAcyclic(pm: ParentMap, d: int)
    requires Acyclic(pm)
    ensures Acyclic(Detach(pm, d))
  {
    var pm' := Detach(pm, d);
    forall x | x in pm'
      ensures Walk(pm', x, |pm'| + 1).Some?
    {
      var ch := Chain(pm, x);
      ChainCharacterization(pm, x, ch);
      var k := if d in ch then FirstIndex(ch, d) else |ch|;
      assert k > 0;
      var path := ch[..k];
      forall i | 0 <= i < k - 1
        ensures Lookup(pm', path[i]) == Some(path[i + 1])
      {
        assert Lookup(pm, ch[i]) == Some(ch[i + 1]);
        assert ch[i] != d && ch[i + 1] != d;
      }
      assert Lookup(pm', path[k - 1]) == None by {
        assert path[k - 1] == ch[k - 1] != d;
        if k < |ch| {
          assert Lookup(pm, ch[k - 1]) == Some(d);
        }
      }
      AncestorPathTerminates(pm', x, path);
    }
  }

  /** The position of the first occurrence of `c`. */
  function FirstIndex(xs: seq<int>, c: int): (k: nat)
    requires c in xs
    ensures k < |xs| && xs[k] == c && c !in xs[..k]
  {
    if xs[0] == c then 0
    else
      var k := 1 + FirstIndex(xs[1..], c);
      assert xs[..k] == [xs[0]] + xs[1..][..k - 1];
      k
  }

  /** Each entry of the chain has the next entry as its parent, and the last has none. */
  lemma ChainLink(pm: ParentMap, c: int, k: nat)
    requires Acyclic(pm)
    requires k < |Chain(pm, c)|
    ensures Lookup(pm, Chain(pm, c)[k]) == if k < |Chain(pm, c)| - 1 then Some(Chain(pm, c)[k + 1]) else None
  {
    ChainCharacterization(pm, c, Chain(pm, c));
  }

  /** The first position of `c` is the position before which `c` does not occur. */
  lemma FirstIndexIs(xs: seq<int>, c: int, i: nat)
    requires i < |xs| && xs[i] == c
    requires forall k | 0 <= k < i :: xs[k] != c
    ensures c in xs && FirstIndex(xs, c) == i
  {
    var k := FirstIndex(xs, c);
    assert k <= i;
  }

  /** Two committees that are each other's parent never finish their walks. */
  lemma {:induction false} TwoCycleNeverEnds(pm: ParentMap, a: int, b: int, fuel: nat)
    requires Lookup(pm, a) == Some(b) && Lookup(pm, b) == Some(a)
    ensures Walk(pm, a, fuel) == None && Walk(pm, b, fuel) == None
    decreases fuel
  {
    if fuel > 0 {
      TwoCycleNeverEnds(pm, a, b, fuel - 1);
    }
  }

  /** Committees on a cycle of parent pointers never finish their walks. */
  lemma {:induction false} CycleNeverEnds(pm: ParentMap, cyc: seq<int>, i: int, fuel: nat)
    requires 0 <= i < |cyc|
    requires forall j | 0 <= j < |cyc| - 1 :: Lookup(pm, cyc[j]) == Some(cyc[j + 1])
    requires Lookup(pm, cyc[|cyc| - 1]) == Some(cyc[0])
    ensures Walk(pm, cyc[i], fuel) == None
    decreases fuel
  {
    if fuel > 0 {
      CycleNeverEnds(pm, cyc, if i + 1 < |cyc| then i + 1 else 0, fuel - 1);
    }
  }

  /**
   * The stretch of an ancestor path of `np` up to the first `c`, once `c`
   * gets `np` as parent, is a cycle of parent pointers.
   */
  lemma PrefixBecomesCycle(pm: ParentMap, np: int, path: seq<int>, c: int, k: int)
    requires IsAncestorPath(pm, np, path)
    requires 0 <= k < |path| && path[k] == c && c !in path[..k]
    ensures var pm' := pm[c := Some(np)];
      && (forall j | 0 <= j < k :: Lookup(pm', path[j]) == Some(path[j + 1]))
      && Lookup(pm', path[k]) == Some(path[0])
  {
    var pm' := pm[c := Some(np)];
    forall j | 0 <= j < k
      ensures Lookup(pm', path[j]) == Some(path[j + 1])
    {
      assert path[j] == path[..k][j];
    }
  }

  /**
   * Giving `c` a new parent whose ancestor chain contains `c` closes a
   * cycle: the chain up to `c` loops back to the new parent.
   */
  lemma ReparentIntoChainCycles(pm: ParentMap, c: int, np: int)
    requires Acyclic(pm)
    requires c in pm
    requires c in Chain(pm, np)
    ensures !Acyclic(pm[c := Some(np)])
  {
    var ch := Chain(pm, np);
    ChainCharacterization(pm, np, ch);
    var k := FirstIndex(ch, c);
    var pm' := pm[c := Some(np)];
    PrefixBecomesCycle(pm, np, ch, c, k);
    var cyc := ch[..k + 1];
    assert cyc[|cyc| - 1] == c;
    CycleNeverEnds(pm', cyc, k, |pm'| + 1);
  }

  /** A committee that is its own parent never finishes its walk. */
  lemma {:induction false} SelfLoopNeverEnds(pm: ParentMap, c: int, fuel: nat)
    requires Lookup(pm, c) == Some(c)
    ensures Walk(pm, c, fuel) == None
    decreases fuel
  {
    if fuel > 0 {
      SelfLoopNeverEnds(pm, c, fuel - 1);
    }
  }

  /**
   * `next((row.parent for row in rows if row.id == c), None)`: the parent
   * recorded by the first row with that id, None when there is none.
   */
  function ScanParent(rows: seq<Row>, c: int): (r: Option<int>)
    ensures r.Some? ==> exists i :: 0 <= i < |rows| && rows[i].id == c && rows[i].parent == r
  {
    if rows == [] then None
    else if rows[0].id == c then rows[0].parent
    else
      var r := ScanParent(rows[1..], c);
      assert r.Some? ==> exists i :: 0 <= i < |rows[1..]| && rows[1..][i].id == c && rows[1..][i].parent == r;
      r
  }

  /** The ids the rows carry. */
  function Ids(rows: seq<Row>): set<int> {
    set r | r in rows :: r.id
  }

  /** The parent map the rows describe, the first row of an id deciding. */
  function ParentMapOf(rows: seq<Row>): ParentMap
  {
    if rows == [] then map[] else ParentMapOf(rows[1..])[rows[0].id := rows[0].parent]
  }

  /** Scanning the rows and looking the id up in their parent map agree. */
  lemma {:induction false} ScanIsLookup(rows: seq<Row>, c: int)
    ensures ScanParent(rows, c) == Lookup(ParentMapOf(rows), c)
  {
    if rows != [] && rows[0].id != c {
      ScanIsLookup(rows[1..], c);
    }
  }
}
