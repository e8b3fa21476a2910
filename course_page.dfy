/**
 * The list, tree and set updates of the course page: the organise view's
 * drop handler (take a unit out of the forest, hang it under a column) and
 * the order records it saves, the optimistic completion toggle with its
 * revert, and adding and deleting a unit's important links.
 */
module CoursePage {
  import opened Wrappers
  import opened CourseUnits

  /** A unit with its children, as the organise view holds it after buildTree. */
  datatype UnitNode = UnitNode(unit: CourseUnit, children: seq<UnitNode>)

  /** The ids of a forest in depth-first pre-order: each node, then its subtree, then its siblings. */
  function Ids(nodes: seq<UnitNode>): seq<string>
    decreases nodes
  {
    if nodes == [] then [] else [nodes[0].unit.id] + Ids(nodes[0].children) + Ids(nodes[1..])
  }

  lemma {:induction false} IdsAppend(a: seq<UnitNode>, b: seq<UnitNode>)
    ensures Ids(a + b) == Ids(a) + Ids(b)
    decreases a
  {
    if a == [] {
      assert a + b == b;
    } else {
      assert (a + b)[0] == a[0];
      assert (a + b)[1..] == a[1..] + b;
      IdsAppend(a[1..], b);
      calc {
        Ids(a + b);
        [a[0].unit.id] + Ids(a[0].children) + Ids(a[1..] + b);
        [a[0].unit.id] + Ids(a[0].children) + (Ids(a[1..]) + Ids(b));
        ([a[0].unit.id] + Ids(a[0].children) + Ids(a[1..])) + Ids(b);
      }
    }
  }

  lemma IdsOfOne(node: UnitNode)
    ensures Ids([node]) == [node.unit.id] + Ids(node.children)
  {
    assert [node][1..] == [];
  }

  /** `whole` is `rest` with the block `piece` put back in one place. */
  predicate Spliced(whole: seq<string>, rest: seq<string>, piece: seq<string>) {
    exists k :: 0 <= k <= |rest| && whole == rest[..k] + piece + rest[k..]
  }

  lemma SplicedExtend(pre: seq<string>, whole: seq<string>, rest: seq<string>, piece: seq<string>, post: seq<string>)
    requires Spliced(whole, rest, piece)
    ensures Spliced(pre + whole + post, pre + rest + post, piece)
  {
    var k :| 0 <= k <= |rest| && whole == rest[..k] + piece + rest[k..];
    var all := pre + rest + post;
    assert all[..|pre| + k] == pre + rest[..k];
    assert all[|pre| + k..] == rest[k..] + post;
    assert pre + whole + post == all[..|pre| + k] + piece + all[|pre| + k..];
  }

  /** Putting a block back adds exactly its ids: nothing is lost or duplicated. */
  lemma SplicedMultiset(whole: seq<string>, rest: seq<string>, piece: seq<string>)
    requires Spliced(whole, rest, piece)
    ensures multiset(whole) == multiset(rest) + multiset(piece)
  {
    var k :| 0 <= k <= |rest| && whole == rest[..k] + piece + rest[k..];
    assert rest == rest[..k] + rest[k..];
  }

  // ---------------------------------------------------------------------------
  // The drop handler
  // ---------------------------------------------------------------------------

  /** `findIndex` by id: the first node carrying `id`. */
  function FindIndex(nodes: seq<UnitNode>, id: string): (r: Option<nat>)
    ensures r.Some? ==> r.value < |nodes| && nodes[r.value].unit.id == id
                        && forall j :: 0 <= j < r.value ==> nodes[j].unit.id != id
    ensures r.None? ==> forall j :: 0 <= j < |nodes| ==> nodes[j].unit.id != id
  {
    if nodes == [] then None
    else if nodes[0].unit.id == id then Some(0)
    else match FindIndex(nodes[1..], id)
      case None => None
      case Some(i) => Some(i + 1)
  }

  /** What `removeItem` leaves behind and the node it takes out. */
  datatype Removal = Removal(rest: seq<UnitNode>, moved: UnitNode)

  /**
   * `removeItem`: the node with `id` among `nodes` is spliced out; failing that,
   * the children of each node are searched in turn, and the first search that
   * finds the id ends it.
   */
  function RemoveItem(nodes: seq<UnitNode>, id: string): Option<Removal>
    decreases nodes, 1
  {
    match FindIndex(nodes, id)
    case Some(i) => Some(Removal(nodes[..i] + nodes[i + 1..], nodes[i]))
    case None => RemoveBelow(nodes, id)
  }

  /** The `for (const node of nodes)` part of `removeItem`. */
  function RemoveBelow(nodes: seq<UnitNode>, id: string): Option<Removal>
    decreases nodes, 0
  {
    if nodes == [] then None
    else match RemoveItem(nodes[0].children, id)
      case Some(r) => Some(Removal([nodes[0].(children := r.rest)] + nodes[1..], r.moved))
      case None =>
        match RemoveBelow(nodes[1..], id)
        case Some(r) => Some(Removal([nodes[0]] + r.rest, r.moved))
        case None => None
  }

  /**
   * `removeItem` fails exactly when `id` is nowhere in the forest; otherwise the
   * node it takes out carries `id`, and the forest's ids are what is left with
   * the moved subtree's ids put back in one place, so the other units keep
   * their order.
   */
  lemma {:induction false} RemoveItemSpec(nodes: seq<UnitNode>, id: string)
    ensures RemoveItem(nodes, id).None? <==> id !in Ids(nodes)
    ensures RemoveItem(nodes, id).Some? ==>
              var r := RemoveItem(nodes, id).value;
              r.moved.unit.id == id && Spliced(Ids(nodes), Ids(r.rest), Ids([r.moved]))
    decreases nodes, 1
  {
    match FindIndex(nodes, id)
    case Some(i) =>
      assert nodes == nodes[..i] + [nodes[i]] + nodes[i + 1..];
      IdsAppend(nodes[..i] + [nodes[i]], nodes[i + 1..]);
      IdsAppend(nodes[..i], [nodes[i]]);
      IdsAppend(nodes[..i], nodes[i + 1..]);
      IdsOfOne(nodes[i]);
      var piece := Ids([nodes[i]]);
      assert piece[0] == id;
      assert Spliced(piece, [], piece) by {
        assert piece == [][..0] + piece + [][0..];
      }
      SplicedExtend(Ids(nodes[..i]), piece, [], piece, Ids(nodes[i + 1..]));
      assert Ids(nodes[..i]) + [] + Ids(nodes[i + 1..]) == Ids(nodes[..i] + nodes[i + 1..]);
    case None =>
      RemoveBelowSpec(nodes, id);
  }

  lemma {:induction false} RemoveBelowSpec(nodes: seq<UnitNode>, id: string)
    requires forall j :: 0 <= j < |nodes| ==> nodes[j].unit.id != id
    ensures RemoveBelow(nodes, id).None? <==> id !in Ids(nodes)
    ensures RemoveBelow(nodes, id).Some? ==>
              var r := RemoveBelow(nodes, id).value;
              r.moved.unit.id == id && Spliced(Ids(nodes), Ids(r.rest), Ids([r.moved]))
    decreases nodes, 0
  {
    if nodes != [] {
      var head := nodes[0];
      assert Ids(nodes) == [head.unit.id] + Ids(head.children) + Ids(nodes[1..]);
      RemoveItemSpec(head.children, id);
      match RemoveItem(head.children, id)
      case Some(r) =>
        var newHead := head.(children := r.rest);
        IdsAppend([newHead], nodes[1..]);
        IdsOfOne(newHead);
        SplicedExtend([head.unit.id], Ids(head.children), Ids(r.rest), Ids([r.moved]), Ids(nodes[1..]));
      case None =>
        RemoveBelowSpec(nodes[1..], id);
        match RemoveBelow(nodes[1..], id)
        case Some(r) =>
          IdsAppend([head], r.rest);
          IdsOfOne(head);
          SplicedExtend(Ids([head]), Ids(nodes[1..]), Ids(r.rest), Ids([r.moved]), []);
          assert Ids([head]) + Ids(nodes[1..]) + [] == Ids(nodes);
          assert Ids([head]) + Ids(r.rest) + [] == Ids([head] + r.rest);
        case None =>
    }
  }

  /** The moved node with `parent_id` pointing at its new column. */
  function Reparented(node: UnitNode, parent: string): UnitNode {
    node.(unit := node.unit.(parentId := Some(parent)))
  }

  /**
   * The column's `onDrop`: without a dragged id, when `removeItem` finds
   * nothing, or when no column with the target's id is left, the view stays as
   * it was; otherwise the removed node, reparented, becomes the last child of
   * the target column.
   */
  function Drop(columns: seq<UnitNode>, dragging: Option<string>, targetId: string): seq<UnitNode> {
    if dragging.None? || dragging.value == "" then columns
    else match RemoveItem(columns, dragging.value)
      case None => columns
      case Some(removal) =>
        match FindIndex(removal.rest, targetId)
        case None => columns
        case Some(t) =>
          var target := removal.rest[t];
          removal.rest[t := target.(children := target.children + [Reparented(removal.moved, targetId)])]
  }

  /** Nothing happens without a dragged id or when the dragged id is not in the view. */
  lemma DropWithoutItem(columns: seq<UnitNode>, dragging: Option<string>, targetId: string)
    requires dragging.None? || dragging.value == "" || dragging.value !in Ids(columns)
    ensures Drop(columns, dragging, targetId) == columns
  {
    if dragging.Some? && dragging.value != "" {
      RemoveItemSpec(columns, dragging.value);
    }
  }

  /**
   * A successful drop: every column but the target is the one `removeItem`
   * left, the target gains the moved node (with `parent_id` set to the target)
   * as its last child, and before and after the drop the forest's ids are the
   * same remaining ids with the moved subtree's ids inserted in one place.
   * So no unit is lost or duplicated and all other units keep their order.
   */
  lemma DropMovesUnderTarget(columns: seq<UnitNode>, dragged: string, targetId: string)
    requires dragged != "" && dragged in Ids(columns)
    ensures RemoveItem(columns, dragged).Some?
    ensures var removal := RemoveItem(columns, dragged).value;
            var r := Drop(columns, Some(dragged), targetId);
            (FindIndex(removal.rest, targetId).None? ==> r == columns)
            && (FindIndex(removal.rest, targetId).Some? ==>
                  var t := FindIndex(removal.rest, targetId).value;
                  var moved := Reparented(removal.moved, targetId);
                  |r| == |removal.rest|
                  && (forall j :: 0 <= j < |r| && j != t ==> r[j] == removal.rest[j])
                  && r[t].unit == removal.rest[t].unit && r[t].unit.id == targetId
                  && r[t].children == removal.rest[t].children + [moved]
                  && moved.unit.id == dragged && moved.unit.parentId == Some(targetId)
                  && Spliced(Ids(columns), Ids(removal.rest), Ids([removal.moved]))
                  && Spliced(Ids(r), Ids(removal.rest), Ids([removal.moved])))
  {
    RemoveItemSpec(columns, dragged);
    var removal := RemoveItem(columns, dragged).value;
    match FindIndex(removal.rest, targetId)
    case None =>
    case Some(t) =>
      AppendChildIds(removal.rest, t, Reparented(removal.moved, targetId));
      ReparentedIds(removal.moved, targetId);
  }

  /** Reparenting changes no id. */
  lemma ReparentedIds(node: UnitNode, parent: string)
    ensures Ids([Reparented(node, parent)]) == Ids([node])
  {
    IdsOfOne(node);
    IdsOfOne(Reparented(node, parent));
  }

  lemma IdsAround(pre: seq<UnitNode>, node: UnitNode, post: seq<UnitNode>)
    ensures Ids(pre + [node] + post) == Ids(pre) + ([node.unit.id] + Ids(node.children)) + Ids(post)
  {
    IdsAppend(pre + [node], post);
    IdsAppend(pre, [node]);
    IdsOfOne(node);
  }

  lemma IdsAtIndex(nodes: seq<UnitNode>, t: nat, node: UnitNode)
    requires t < |nodes|
    ensures Ids(nodes[t := node]) == Ids(nodes[..t]) + ([node.unit.id] + Ids(node.children)) + Ids(nodes[t + 1..])
  {
    assert nodes[t := node] == nodes[..t] + [node] + nodes[t + 1..];
    IdsAround(nodes[..t], node, nodes[t + 1..]);
  }

  /** A block put between two halves is spliced into their concatenation. */
  lemma SplicedBetween(front: seq<string>, piece: seq<string>, back: seq<string>)
    ensures Spliced(front + piece + back, front + back, piece)
  {
    assert (front + back)[..|front|] == front && (front + back)[|front|..] == back;
  }

  /** The ids of a forest around its node `t`. */
  lemma IdsSplitAt(nodes: seq<UnitNode>, t: nat)
    requires t < |nodes|
    ensures Ids(nodes) == (Ids(nodes[..t]) + ([nodes[t].unit.id] + Ids(nodes[t].children))) + Ids(nodes[t + 1..])
  {
    IdsAtIndex(nodes, t, nodes[t]);
    assert nodes[t := nodes[t]] == nodes;
  }

  /** The ids of a forest once node `t` has a new last child. */
  lemma IdsWithChildAt(nodes: seq<UnitNode>, t: nat, child: UnitNode)
    requires t < |nodes|
    ensures Ids(nodes[t := nodes[t].(children := nodes[t].children + [child])])
            == (Ids(nodes[..t]) + ([nodes[t].unit.id] + Ids(nodes[t].children))) + Ids([child]) + Ids(nodes[t + 1..])
  {
    var target := nodes[t];
    var grown := target.(children := target.children + [child]);
    IdsAtIndex(nodes, t, grown);
    IdsAppend(target.children, [child]);
    assert [grown.unit.id] + Ids(grown.children) == ([target.unit.id] + Ids(target.children)) + Ids([child]);
  }

  /** Appending a child to node `t` inserts the child's subtree ids in one place. */
  lemma AppendChildIds(nodes: seq<UnitNode>, t: nat, child: UnitNode)
    requires t < |nodes|
    ensures Spliced(Ids(nodes[t := nodes[t].(children := nodes[t].children + [child])]), Ids(nodes), Ids([child]))
  {
    IdsSplitAt(nodes, t);
    IdsWithChildAt(nodes, t, child);
    SplicedBetween(Ids(nodes[..t]) + ([nodes[t].unit.id] + Ids(nodes[t].children)), Ids([child]), Ids(nodes[t + 1..]));
  }

  /** A drop never loses or duplicates a unit. */
  lemma DropKeepsUnits(columns: seq<UnitNode>, dragging: Option<string>, targetId: string)
    ensures multiset(Ids(Drop(columns, dragging, targetId))) == multiset(Ids(columns))
  {
    if dragging.None? || dragging.value == "" || dragging.value !in Ids(columns) {
      DropWithoutItem(columns, dragging, targetId);
    } else {
      var dragged := dragging.value;
      DropMovesUnderTarget(columns, dragged, targetId);
      var removal := RemoveItem(columns, dragged).value;
      if FindIndex(removal.rest, targetId).Some? {
        SplicedMultiset(Ids(columns), Ids(removal.rest), Ids([removal.moved]));
        SplicedMultiset(Ids(Drop(columns, dragging, targetId)), Ids(removal.rest), Ids([removal.moved]));
      }
    }
  }

  // ---------------------------------------------------------------------------
  // handleSaveOrder
  // ---------------------------------------------------------------------------

  /** One record sent to `updateUnitOrder`; `None` leaves `parent_id` as it is. */
  datatype OrderUpdate = OrderUpdate(id: string, orderIndex: nat, parentId: Option<string>)

  /** The records of the first `m` children of a column. */
  function ChildUpdates(children: seq<UnitNode>, parent: string, m: nat): seq<OrderUpdate>
    requires m <= |children|
  {
    if m == 0 then []
    else ChildUpdates(children, parent, m - 1) + [OrderUpdate(children[m - 1].unit.id, m - 1, Some(parent))]
  }

  /** The records of one column: the column itself, then each of its children. */
  function ColumnUpdates(column: UnitNode, columnIndex: nat): seq<OrderUpdate> {
    [OrderUpdate(column.unit.id, columnIndex, None)] + ChildUpdates(column.children, column.unit.id, |column.children|)
  }

  /** The records of the first `n` columns. */
  function OrderUpdatesUpTo(columns: seq<UnitNode>, n: nat): seq<OrderUpdate>
    requires n <= |columns|
  {
    if n == 0 then [] else OrderUpdatesUpTo(columns, n - 1) + ColumnUpdates(columns[n - 1], n - 1)
  }

  /** Where the records of column `c` start: one record per earlier column and per child of it. */
  function ColumnOffset(columns: seq<UnitNode>, c: nat): nat
    requires c <= |columns|
  {
    if c == 0 then 0 else ColumnOffset(columns, c - 1) + 1 + |columns[c - 1].children|
  }

  /** handleSaveOrder's update list, built by the source's two nested `forEach` loops. */
  method HandleSaveOrder(columns: seq<UnitNode>) returns (updates: seq<OrderUpdate>)
    ensures updates == OrderUpdatesUpTo(columns, |columns|)
  {
    updates := [];
    var columnIndex := 0;
    while columnIndex < |columns|
      invariant 0 <= columnIndex <= |columns|
      invariant updates == OrderUpdatesUpTo(columns, columnIndex)
    {
      var column := columns[columnIndex];
      var before := updates;
      updates := updates + [OrderUpdate(column.unit.id, columnIndex, None)];
      var childIndex := 0;
      while childIndex < |column.children|
        invariant 0 <= childIndex <= |column.children|
        invariant updates == before + [OrderUpdate(column.unit.id, columnIndex, None)]
                             + ChildUpdates(column.children, column.unit.id, childIndex)
      {
        var child := column.children[childIndex];
        updates := updates + [OrderUpdate(child.unit.id, childIndex, Some(column.unit.id))];
        childIndex := childIndex + 1;
      }
      columnIndex := columnIndex + 1;
    }
  }

  lemma {:induction false} ChildUpdatesContent(children: seq<UnitNode>, parent: string, m: nat)
    requires m <= |children|
    ensures |ChildUpdates(children, parent, m)| == m
    ensures forall j :: 0 <= j < m ==>
              ChildUpdates(children, parent, m)[j] == OrderUpdate(children[j].unit.id, j, Some(parent))
  {
    if m > 0 {
      ChildUpdatesContent(children, parent, m - 1);
    }
  }

  /** There is one record per column and one per direct child of a column. */
  lemma {:induction false} OrderUpdatesLength(columns: seq<UnitNode>, n: nat)
    requires n <= |columns|
    ensures |OrderUpdatesUpTo(columns, n)| == ColumnOffset(columns, n)
  {
    if n > 0 {
      OrderUpdatesLength(columns, n - 1);
      ChildUpdatesContent(columns[n - 1].children, columns[n - 1].unit.id, |columns[n - 1].children|);
    }
  }

  /** The records of fewer columns are a prefix of the records of more. */
  lemma {:induction false} OrderUpdatesPrefix(columns: seq<UnitNode>, m: nat, n: nat)
    requires m <= n <= |columns|
    ensures |OrderUpdatesUpTo(columns, m)| <= |OrderUpdatesUpTo(columns, n)|
    ensures OrderUpdatesUpTo(columns, n)[..|OrderUpdatesUpTo(columns, m)|] == OrderUpdatesUpTo(columns, m)
  {
    if m < n {
      OrderUpdatesPrefix(columns, m, n - 1);
      var u := OrderUpdatesUpTo(columns, n - 1);
      assert OrderUpdatesUpTo(columns, n)[..|u|] == u;
    }
  }

  /**
   * The saved records: one per column and one per direct child, nothing for
   * deeper units. Column `c` gets `order_index` c and keeps its parent, and is
   * followed by its children, child `j` with `order_index` j and the column as
   * parent.
   */
  lemma SaveOrderRecords(columns: seq<UnitNode>, c: nat)
    requires c < |columns|
    ensures ColumnOffset(columns, c) + |columns[c].children| < |OrderUpdatesUpTo(columns, |columns|)|
    ensures OrderUpdatesUpTo(columns, |columns|)[ColumnOffset(columns, c)]
            == OrderUpdate(columns[c].unit.id, c, None)
    ensures forall j :: 0 <= j < |columns[c].children| ==>
              OrderUpdatesUpTo(columns, |columns|)[ColumnOffset(columns, c) + 1 + j]
              == OrderUpdate(columns[c].children[j].unit.id, j, Some(columns[c].unit.id))
  {
    var column := columns[c];
    ColumnUpdatesContent(column, c);
    ColumnBlockAt(columns, c, 0);
    ColumnBlockAt(columns, c, |column.children|);
    forall j | 0 <= j < |column.children|
      ensures OrderUpdatesUpTo(columns, |columns|)[ColumnOffset(columns, c) + 1 + j]
              == OrderUpdate(column.children[j].unit.id, j, Some(column.unit.id))
    {
      ColumnBlockAt(columns, c, 1 + j);
    }
  }

  /** The records of column `c` sit at its offset in the full list. */
  lemma ColumnBlockAt(columns: seq<UnitNode>, c: nat, x: nat)
    requires c < |columns| && x < |ColumnUpdates(columns[c], c)|
    ensures ColumnOffset(columns, c) + x < |OrderUpdatesUpTo(columns, |columns|)|
    ensures OrderUpdatesUpTo(columns, |columns|)[ColumnOffset(columns, c) + x] == ColumnUpdates(columns[c], c)[x]
  {
    OrderUpdatesLength(columns, c);
    OrderUpdatesPrefix(columns, c + 1, |columns|);
    var u := OrderUpdatesUpTo(columns, |columns|);
    var v := OrderUpdatesUpTo(columns, c + 1);
    assert v == OrderUpdatesUpTo(columns, c) + ColumnUpdates(columns[c], c);
    assert u[ColumnOffset(columns, c) + x] == u[..|v|][ColumnOffset(columns, c) + x];
  }

  lemma ColumnUpdatesContent(column: UnitNode, c: nat)
    ensures |ColumnUpdates(column, c)| == 1 + |column.children|
    ensures ColumnUpdates(column, c)[0] == OrderUpdate(column.unit.id, c, None)
    ensures forall j :: 0 <= j < |column.children| ==>
              ColumnUpdates(column, c)[1 + j] == OrderUpdate(column.children[j].unit.id, j, Some(column.unit.id))
  {
    ChildUpdatesContent(column.children, column.unit.id, |column.children|);
  }

  /** The ids of a list of records. */
  function UpdateIds(updates: seq<OrderUpdate>): seq<string> {
    seq(|updates|, k requires 0 <= k < |updates| => updates[k].id)
  }

  /** A forest whose columns' children have no children of their own. */
  predicate TwoLevels(columns: seq<UnitNode>) {
    forall c, j :: 0 <= c < |columns| && 0 <= j < |columns[c].children| ==> columns[c].children[j].children == []
  }

  /** The ids of a list of leaves, one per leaf. */
  lemma {:induction false} LeafIds(leaves: seq<UnitNode>)
    requires forall j :: 0 <= j < |leaves| ==> leaves[j].children == []
    ensures Ids(leaves) == seq(|leaves|, j requires 0 <= j < |leaves| => leaves[j].unit.id)
  {
    if leaves != [] {
      LeafIds(leaves[1..]);
      assert leaves[0].children == [];
      assert Ids([]) == [];
    }
  }

  lemma {:induction false} SaveOrderIdsUpTo(columns: seq<UnitNode>, n: nat)
    requires TwoLevels(columns) && n <= |columns|
    ensures UpdateIds(OrderUpdatesUpTo(columns, n)) == Ids(columns[..n])
  {
    if n > 0 {
      SaveOrderIdsUpTo(columns, n - 1);
      var column := columns[n - 1];
      assert columns[..n] == columns[..n - 1] + [column];
      IdsAppend(columns[..n - 1], [column]);
      IdsOfOne(column);
      assert forall j :: 0 <= j < |column.children| ==> column.children[j].children == [];
      LeafIds(column.children);
      ChildUpdatesContent(column.children, column.unit.id, |column.children|);
      var block := ColumnUpdates(column, n - 1);
      assert UpdateIds(block) == [column.unit.id] + Ids(column.children);
      UpdateIdsAppend(OrderUpdatesUpTo(columns, n - 1), block);
    }
  }

  /** When the view is two levels deep, every unit gets exactly one record, in forest order. */
  lemma SaveOrderCoversTwoLevels(columns: seq<UnitNode>)
    requires TwoLevels(columns)
    ensures UpdateIds(OrderUpdatesUpTo(columns, |columns|)) == Ids(columns)
  {
    SaveOrderIdsUpTo(columns, |columns|);
    assert columns[..|columns|] == columns;
  }

  lemma UpdateIdsAppend(a: seq<OrderUpdate>, b: seq<OrderUpdate>)
    ensures UpdateIds(a + b) == UpdateIds(a) + UpdateIds(b)
  {
  }

  // ---------------------------------------------------------------------------
  // handleToggleComplete
  // ---------------------------------------------------------------------------

  /** Adds `id` when `done`, deletes it otherwise, on a copy of the set. */
  function MarkCompletion(completed: set<string>, id: string, done: bool): (r: set<string>)
    ensures id in r <==> done
    ensures forall other :: other != id ==> (other in r <==> other in completed)
  {
    if done then completed + {id} else completed - {id}
  }

  /** The status handleToggleComplete asks the server to record. */
  function NewStatus(completed: set<string>, id: string): bool {
    id !in completed
  }

  /** The optimistic update flips the unit's membership and nothing else, like toggleExpand. */
  lemma OptimisticCompletionFlips(completed: set<string>, id: string)
    ensures MarkCompletion(completed, id, NewStatus(completed, id)) == ToggleExpand(completed, id)
  {
  }

  /** The revert on a failed request applies the opposite status and so restores the set. */
  lemma RevertRestores(completed: set<string>, id: string)
    ensures var newStatus := NewStatus(completed, id);
            MarkCompletion(MarkCompletion(completed, id, newStatus), id, !newStatus) == completed
  {
  }

  // ---------------------------------------------------------------------------
  // Important links of a unit
  // ---------------------------------------------------------------------------

  datatype UnitLink = UnitLink(title: string, url: string)

  /** `important_links || []`. */
  function CurrentLinks(links: Option<seq<UnitLink>>): seq<UnitLink> {
    if links.Some? then links.value else []
  }

  /**
   * handleAddLink: no update when the title or the url is empty; otherwise
   * the new link is appended after the current ones.
   */
  function AddLink(links: Option<seq<UnitLink>>, newLink: UnitLink): (r: Option<seq<UnitLink>>)
    ensures r.None? <==> newLink.title == "" || newLink.url == ""
    ensures r.Some? ==> |r.value| == |CurrentLinks(links)| + 1
                        && r.value[..|CurrentLinks(links)|] == CurrentLinks(links)
                        && r.value[|CurrentLinks(links)|] == newLink
  {
    if newLink.title == "" || newLink.url == "" then None else Some(CurrentLinks(links) + [newLink])
  }

  /** The selected unit's links, the new-link form and whether its modal is open. */
  datatype LinkEditor = LinkEditor(links: Option<seq<UnitLink>>, newLink: UnitLink, modalOpen: bool)

  /**
   * handleAddLink once the request has run: when `updateUnitLinks` stored the
   * longer list, the unit shows it, the form is emptied and the modal closes.
   * With an empty field no request is sent, and a failed request leaves
   * everything as it was.
   */
  function HandleAddLink(editor: LinkEditor, stored: bool): (r: LinkEditor)
    ensures editor.newLink.title == "" || editor.newLink.url == "" || !stored ==> r == editor
    ensures editor.newLink.title != "" && editor.newLink.url != "" && stored ==>
              r.links == Some(CurrentLinks(editor.links) + [editor.newLink])
              && r.newLink == UnitLink("", "") && !r.modalOpen
  {
    var updated := AddLink(editor.links, editor.newLink);
    if updated.Some? && stored then LinkEditor(updated, UnitLink("", ""), false) else editor
  }

  /**
   * handleDeleteLink once the request has run: only a confirmed deletion that
   * `updateUnitLinks` stored changes the unit's links, and nothing else.
   */
  function HandleDeleteLink(editor: LinkEditor, index: int, confirmed: bool, stored: bool): (r: LinkEditor)
    ensures !confirmed || !stored ==> r == editor
    ensures confirmed && stored ==>
              r.links == Some(DeleteLink(editor.links, index))
              && r.newLink == editor.newLink && r.modalOpen == editor.modalOpen
  {
    if confirmed && stored then editor.(links := Some(DeleteLink(editor.links, index))) else editor
  }

  /** `filter((_, i) => i !== index)` over the first `n` links. */
  function KeepOtherIndices(links: seq<UnitLink>, index: int, n: nat): seq<UnitLink>
    requires n <= |links|
  {
    if n == 0 then []
    else KeepOtherIndices(links, index, n - 1) + (if n - 1 != index then [links[n - 1]] else [])
  }

  /** handleDeleteLink's new list. */
  function DeleteLink(links: Option<seq<UnitLink>>, index: int): seq<UnitLink> {
    var current := CurrentLinks(links);
    KeepOtherIndices(current, index, |current|)
  }

  lemma {:induction false} KeepOtherIndicesSpec(links: seq<UnitLink>, index: int, n: nat)
    requires n <= |links|
    ensures KeepOtherIndices(links, index, n)
            == if 0 <= index < n then links[..index] + links[index + 1..n] else links[..n]
  {
    if n > 0 {
      KeepOtherIndicesSpec(links, index, n - 1);
      if 0 <= index < n - 1 {
        var front, middle, last := links[..index], links[index + 1..n - 1], [links[n - 1]];
        assert links[index + 1..n] == middle + last;
        assert front + middle + last == front + (middle + last);
      } else if index == n - 1 {
        assert links[index + 1..n] == [];
      } else {
        assert links[..n] == links[..n - 1] + [links[n - 1]];
      }
    }
  }

  /** Deleting removes exactly the link at `index`, and nothing when no link is there. */
  lemma DeleteLinkRemovesIndex(links: Option<seq<UnitLink>>, index: int)
    ensures var current := CurrentLinks(links);
            DeleteLink(links, index) == if 0 <= index < |current| then current[..index] + current[index + 1..] else current
  {
    var current := CurrentLinks(links);
    KeepOtherIndicesSpec(current, index, |current|);
    assert current[..|current|] == current;
  }

  /** Adding a link and then deleting it, the last one, gives back the links there were. */
  lemma AddThenDeleteRestores(editor: LinkEditor)
    requires editor.newLink.title != "" && editor.newLink.url != ""
    ensures var added := HandleAddLink(editor, true);
            HandleDeleteLink(added, |CurrentLinks(editor.links)|, true, true).links == Some(CurrentLinks(editor.links))
  {
    var current := CurrentLinks(editor.links);
    var added := HandleAddLink(editor, true);
    assert CurrentLinks(added.links) == current + [editor.newLink];
    DeleteLinkRemovesIndex(added.links, |current|);
    assert (current + [editor.newLink])[..|current|] == current;
    assert (current + [editor.newLink])[|current| + 1..] == [];
    assert DeleteLink(added.links, |current|) == current;
  }
}
