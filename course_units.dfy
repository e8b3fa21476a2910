/**
 * The course-unit forest shared by the course page and the course editor:
 * `buildTree`, which turns the flat rows of `course_units` into roots and
 * children lists, and the expand/collapse toggle over a set of unit ids.
 * Both components carry identical copies of this code.
 */
module CourseUnits {
  import opened Wrappers

  /** One row of `course_units`; `children` is kept outside the row, in the forest below. */
  datatype CourseUnit = CourseUnit(
    id: string,
    courseId: string,
    parentId: Option<string>,
    title: string,
    description: Option<string>,
    contentType: string,
    duration: Option<string>,
    videoUrl: Option<string>,
    orderIndex: int,
    instructorName: Option<string>,
    instructorTitle: Option<string>)

  /** No two rows share an id (the database key). */
  predicate UniqueIds(units: seq<CourseUnit>) {
    forall i, j :: 0 <= i < j < |units| ==> units[i].id != units[j].id
  }

  // ---------------------------------------------------------------------------
  // The two passes of buildTree, as functions of the rows seen so far
  // ---------------------------------------------------------------------------

  /**
   * The node map after the first pass over `units[..n]`: one node per id,
   * and a later row with the same id replaces the earlier node.
   */
  function NodesUpTo(units: seq<CourseUnit>, n: nat): map<string, CourseUnit>
    requires n <= |units|
  {
    if n == 0 then map[] else NodesUpTo(units, n - 1)[units[n - 1].id := units[n - 1]]
  }

  function Nodes(units: seq<CourseUnit>): map<string, CourseUnit> {
    NodesUpTo(units, |units|)
  }

  /**
   * Where the second pass puts a row: under its parent (`Some(parent)`) when
   * `parent_id` is a non-empty string naming a node, among the roots (`None`)
   * otherwise.
   */
  function Placement(u: CourseUnit, nodes: map<string, CourseUnit>): Option<string> {
    if u.parentId.Some? && u.parentId.value != "" && u.parentId.value in nodes then Some(u.parentId.value)
    else None
  }

  /** The ids pushed onto the list `slot` (roots for `None`) by the second pass over `units[..n]`. */
  function PlacedUpTo(units: seq<CourseUnit>, nodes: map<string, CourseUnit>, slot: Option<string>, n: nat): seq<string>
    requires n <= |units|
  {
    if n == 0 then []
    else PlacedUpTo(units, nodes, slot, n - 1)
         + (if Placement(units[n - 1], nodes) == slot then [units[n - 1].id] else [])
  }

  /** The roots buildTree returns, as node ids. */
  function Roots(units: seq<CourseUnit>): seq<string> {
    PlacedUpTo(units, Nodes(units), None, |units|)
  }

  /** The children list of node `p` once buildTree is done, as node ids. */
  function Children(units: seq<CourseUnit>, p: string): seq<string> {
    PlacedUpTo(units, Nodes(units), Some(p), |units|)
  }

  /**
   * buildTree. Nodes are identified by their id, as the source's map does;
   * `nodes` holds each node's row and `children` each node's children list.
   */
  method BuildTree(units: seq<CourseUnit>)
    returns (nodes: map<string, CourseUnit>, roots: seq<string>, children: map<string, seq<string>>)
    ensures nodes == Nodes(units)
    ensures roots == Roots(units)
    ensures children.Keys == nodes.Keys
    ensures forall p :: p in children ==> children[p] == Children(units, p)
  {
    nodes := map[];
    children := map[];
    var i := 0;
    while i < |units|
      invariant 0 <= i <= |units|
      invariant nodes == NodesUpTo(units, i)
      invariant children.Keys == nodes.Keys
      invariant forall p :: p in children ==> children[p] == []
    {
      nodes := nodes[units[i].id := units[i]];
      children := children[units[i].id := []];
      i := i + 1;
    }
    roots := [];
    i := 0;
    while i < |units|
      invariant 0 <= i <= |units|
      invariant children.Keys == nodes.Keys
      invariant roots == PlacedUpTo(units, nodes, None, i)
      invariant forall p :: p in children ==> children[p] == PlacedUpTo(units, nodes, Some(p), i)
    {
      var u := units[i];
      if u.parentId.Some? && u.parentId.value != "" && u.parentId.value in nodes {
        var parent := u.parentId.value;
        children := children[parent := children[parent] + [u.id]];
      } else {
        roots := roots + [u.id];
      }
      i := i + 1;
    }
  }

  // ---------------------------------------------------------------------------
  // What the forest looks like
  // ---------------------------------------------------------------------------

  /** The node map has exactly the ids of the rows as keys. */
  lemma {:induction false} NodesKeys(units: seq<CourseUnit>, n: nat, id: string)
    requires n <= |units|
    ensures id in NodesUpTo(units, n) <==> exists i :: 0 <= i < n && units[i].id == id
  {
    if n > 0 {
      NodesKeys(units, n - 1, id);
      if id == units[n - 1].id {
        assert units[n - 1].id == id;
      }
    }
  }

  /** Of several rows with the same id, the last one supplies the node. */
  lemma {:induction false} NodeIsLastRow(units: seq<CourseUnit>, n: nat, i: nat)
    requires i < n <= |units|
    requires forall j :: i < j < n ==> units[j].id != units[i].id
    ensures units[i].id in NodesUpTo(units, n) && NodesUpTo(units, n)[units[i].id] == units[i]
  {
    if i < n - 1 {
      NodeIsLastRow(units, n - 1, i);
    }
  }

  /** With unique ids, the node of each row is that row. */
  lemma NodeOfUniqueRow(units: seq<CourseUnit>, i: nat)
    requires UniqueIds(units) && i < |units|
    ensures units[i].id in Nodes(units) && Nodes(units)[units[i].id] == units[i]
  {
    NodeIsLastRow(units, |units|, i);
  }

  /** A list holds exactly the ids of the rows that the second pass sends to it. */
  lemma {:induction false} PlacedMembers(units: seq<CourseUnit>, nodes: map<string, CourseUnit>, slot: Option<string>, n: nat, x: string)
    requires n <= |units|
    ensures x in PlacedUpTo(units, nodes, slot, n)
            <==> exists i :: 0 <= i < n && units[i].id == x && Placement(units[i], nodes) == slot
  {
    if n > 0 {
      PlacedMembers(units, nodes, slot, n - 1, x);
      if units[n - 1].id == x && Placement(units[n - 1], nodes) == slot {
        assert units[n - 1].id == x;
      }
    }
  }

  /** Every entry of `xs` is the id of one of the rows `units[..n]`. */
  predicate FromRows(units: seq<CourseUnit>, xs: seq<string>, n: nat)
    requires n <= |units|
  {
    forall a :: 0 <= a < |xs| ==> exists i :: 0 <= i < n && units[i].id == xs[a]
  }

  /** The entries of `xs` come from rows at strictly increasing positions. */
  predicate InRowOrder(units: seq<CourseUnit>, xs: seq<string>) {
    forall a, b, i, j ::
      (0 <= a < b < |xs| && 0 <= i < |units| && 0 <= j < |units|
       && units[i].id == xs[a] && units[j].id == xs[b]) ==> i < j
  }

  /** Every entry of a list is the id of a row the pass has seen. */
  lemma {:induction false} PlacedFromRows(units: seq<CourseUnit>, nodes: map<string, CourseUnit>, slot: Option<string>, n: nat)
    requires n <= |units|
    ensures FromRows(units, PlacedUpTo(units, nodes, slot, n), n)
  {
    if n > 0 {
      PlacedFromRows(units, nodes, slot, n - 1);
      var q := PlacedUpTo(units, nodes, slot, n - 1);
      var p := PlacedUpTo(units, nodes, slot, n);
      forall a | 0 <= a < |p|
        ensures exists i :: 0 <= i < n && units[i].id == p[a]
      {
        if a < |q| {
          assert p[a] == q[a];
          var i :| 0 <= i < n - 1 && units[i].id == q[a];
        } else {
          assert units[n - 1].id == p[a];
        }
      }
    }
  }

  /**
   * With unique ids, every list is in input order: its entries come from rows
   * at strictly increasing positions, so no id appears in it twice.
   */
  lemma {:induction false} PlacedInInputOrder(units: seq<CourseUnit>, nodes: map<string, CourseUnit>, slot: Option<string>, n: nat)
    requires UniqueIds(units) && n <= |units|
    ensures FromRows(units, PlacedUpTo(units, nodes, slot, n), n)
    ensures InRowOrder(units, PlacedUpTo(units, nodes, slot, n))
  {
    PlacedFromRows(units, nodes, slot, n);
    if n > 0 {
      PlacedInInputOrder(units, nodes, slot, n - 1);
      var q := PlacedUpTo(units, nodes, slot, n - 1);
      var p := PlacedUpTo(units, nodes, slot, n);
      if Placement(units[n - 1], nodes) == slot {
        assert p == q + [units[n - 1].id];
        PlacedFromRows(units, nodes, slot, n - 1);
        InRowOrderSnoc(units, q, n);
      } else {
        assert p == q;
      }
    }
  }

  /** Appending the id of row `n - 1` to a list of earlier rows' ids keeps it in row order. */
  lemma InRowOrderSnoc(units: seq<CourseUnit>, q: seq<string>, n: nat)
    requires UniqueIds(units) && 0 < n <= |units|
    requires FromRows(units, q, n - 1) && InRowOrder(units, q)
    ensures InRowOrder(units, q + [units[n - 1].id])
  {
    var p := q + [units[n - 1].id];
    forall a, b, i, j | 0 <= a < b < |p| && 0 <= i < |units| && 0 <= j < |units|
                        && units[i].id == p[a] && units[j].id == p[b]
      ensures i < j
    {
      if b == |q| {
        assert j == n - 1;
        var i' :| 0 <= i' < n - 1 && units[i'].id == q[a];
        assert i == i';
      } else {
        assert p[a] == q[a] && p[b] == q[b];
      }
    }
  }

  /** So no list of the forest holds the same id twice. */
  lemma PlacedHasNoDuplicates(units: seq<CourseUnit>, nodes: map<string, CourseUnit>, slot: Option<string>)
    requires UniqueIds(units)
    ensures var p := PlacedUpTo(units, nodes, slot, |units|);
            forall a, b :: 0 <= a < b < |p| ==> p[a] != p[b]
  {
    PlacedInInputOrder(units, nodes, slot, |units|);
    var p := PlacedUpTo(units, nodes, slot, |units|);
    forall a, b | 0 <= a < b < |p|
      ensures p[a] != p[b]
    {
      var i :| 0 <= i < |units| && units[i].id == p[a];
    }
  }

  /**
   * With unique ids, each row lands in exactly one list: among the roots when
   * its `parent_id` is null, empty or unknown, otherwise in its parent's
   * children and in no other children list. Since no list repeats an id
   * (PlacedHasNoDuplicates), every row appears exactly once in the forest.
   */
  lemma EachRowPlacedOnce(units: seq<CourseUnit>, i: nat)
    requires UniqueIds(units) && i < |units|
    ensures var u := units[i];
            var attached := u.parentId.Some? && u.parentId.value != "" && u.parentId.value in Nodes(units);
            (u.id in Roots(units) <==> !attached)
            && (forall p :: u.id in Children(units, p) <==> attached && u.parentId.value == p)
  {
    var nodes := Nodes(units);
    var u := units[i];
    PlacedMembers(units, nodes, None, |units|, u.id);
    forall p
      ensures u.id in Children(units, p) <==> Placement(u, nodes) == Some(p)
    {
      PlacedMembers(units, nodes, Some(p), |units|, u.id);
    }
  }

  /** Every id in the forest is the id of one of the rows. */
  lemma ForestHoldsOnlyRows(units: seq<CourseUnit>, x: string)
    ensures x in Roots(units) ==> exists i :: 0 <= i < |units| && units[i].id == x
    ensures forall p :: x in Children(units, p) ==> exists i :: 0 <= i < |units| && units[i].id == x
  {
    PlacedMembers(units, Nodes(units), None, |units|, x);
    forall p | x in Children(units, p)
      ensures exists i :: 0 <= i < |units| && units[i].id == x
    {
      PlacedMembers(units, Nodes(units), Some(p), |units|, x);
    }
  }

  // ---------------------------------------------------------------------------
  // toggleExpand
  // ---------------------------------------------------------------------------

  /** toggleExpand: a copy of the set with `id` removed when present and added otherwise. */
  function ToggleExpand(expanded: set<string>, id: string): (r: set<string>)
    ensures id in r <==> id !in expanded
    ensures forall other :: other != id ==> (other in r <==> other in expanded)
  {
    if id in expanded then expanded - {id} else expanded + {id}
  }

  /** Toggling the same unit twice gives back the set it started from. */
  lemma ToggleExpandTwice(expanded: set<string>, id: string)
    ensures ToggleExpand(ToggleExpand(expanded, id), id) == expanded
  {
  }
}
