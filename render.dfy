/**
 * The pointer layer of the node-graph editor: one mutable cache of visual
 * state and the handlers that update it on pointer events and return a
 * command for the controller. Hit-testing and button decoding happen
 * outside: each handler receives the hit target and the held buttons.
 */
module Render {
  import opened Wrappers
  import opened ZOrder
  import opened Geometry
  import opened Connection
  import opened Hover

  /** Every pin a pending connection names exists. */
  predicate ConnectionValid(nodes: map<NodeId, NodeGeom>, c: PartialConnection) {
    match c
    case NoPending => true
    case PendingOutput(id, u) =>
      HasOutput(nodes, id) && forall r :: r in u ==> IsInput(nodes, r)
    case PendingInput(id, index, u) =>
      IsInput(nodes, InputRef(id, index)) && forall o :: o in u ==> HasOutput(nodes, o)
  }

  /** Between handler calls no node carries a temporary wiring override. */
  predicate NoOverrides(nodes: map<NodeId, NodeGeom>) {
    forall id :: id in nodes ==> nodes[id].inputOverwrites == map[]
  }

  /** The draw order lists every node exactly once and only nodes can be selected. */
  ghost predicate OrderValid(zOrder: seq<NodeId>, selected: set<NodeId>, keys: set<NodeId>) {
    && NoDup(zOrder)
    && (forall id :: id in zOrder <==> id in keys)
    && selected <= keys
  }

  /**
   * The pending connection, the hover references and the drag target name
   * existing nodes and pins, and no wiring override is left behind.
   */
  ghost predicate RefsValid(
    nodes: map<NodeId, NodeGeom>, c: PartialConnection,
    output: Option<NodeId>, input: Option<InputRef>, line: Option<InputRef>, node: Option<NodeId>,
    dragging: Option<MouseTarget>)
  {
    && ConnectionValid(nodes, c)
    && HoverRefsValid(nodes, HoverRefs(output, input, line, node))
    && (dragging.Some? ==> TargetValid(nodes, dragging.value))
    && NoOverrides(nodes)
  }

  /** The invariant of the cache, on its fields. */
  ghost predicate CacheValid(
    nodes: map<NodeId, NodeGeom>, zOrder: seq<NodeId>, selected: set<NodeId>, c: PartialConnection,
    output: Option<NodeId>, input: Option<InputRef>, line: Option<InputRef>, node: Option<NodeId>,
    dragging: Option<MouseTarget>)
  {
    && OrderValid(zOrder, selected, nodes.Keys)
    && RefsValid(nodes, c, output, input, line, node, dragging)
  }

  /** References valid in one layout stay valid in a layout with the same nodes, pins and lines. */
  lemma SameLayoutKeepsRefs(
    a: map<NodeId, NodeGeom>, b: map<NodeId, NodeGeom>, c: PartialConnection,
    output: Option<NodeId>, input: Option<InputRef>, line: Option<InputRef>, node: Option<NodeId>,
    dragging: Option<MouseTarget>)
    requires SameLayout(a, b) && RefsValid(a, c, output, input, line, node, dragging)
    ensures RefsValid(b, c, output, input, line, node, dragging)
  {
    match c {
      case NoPending =>
      case PendingOutput(id, u) =>
        LayoutAt(a, b, id);
        forall r | r in u ensures IsInput(b, r) {
          LayoutAt(a, b, r.id);
        }
      case PendingInput(id, index, u) =>
        LayoutAt(a, b, id);
        forall o | o in u ensures HasOutput(b, o) {
          LayoutAt(a, b, o);
        }
    }
    SameLayoutKeepsHoverRefs(a, b, HoverRefs(output, input, line, node));
    if dragging.Some? {
      SameLayoutKeepsTarget(a, b, dragging.value);
    }
    forall id | id in b ensures b[id].inputOverwrites == map[] {
      LayoutAt(a, b, id);
    }
  }

  /** The nodes with the background fill of every id in `ids` cleared. */
  function ClearBackgrounds(nodes: map<NodeId, NodeGeom>, ids: set<NodeId>): (r: map<NodeId, NodeGeom>)
    ensures SameLayout(nodes, r)
  {
    var r := map id | id in nodes :: if id in ids then nodes[id].(background := None) else nodes[id];
    assert Layout(nodes) == Layout(r);
    r
  }

  /**
   * Clearing one more background, and unselecting one more node, is one
   * more in-place write: `rest` holds the nodes not yet visited.
   */
  lemma ClearBackgroundsStep(nodes: map<NodeId, NodeGeom>, selected: set<NodeId>, rest: set<NodeId>, id: NodeId)
    requires rest <= nodes.Keys && id in rest
    ensures var m := ClearBackgrounds(nodes, nodes.Keys - rest);
      && id in m
      && ClearBackgrounds(nodes, nodes.Keys - (rest - {id})) == WithBackground(m, id, None)
    ensures (selected - (nodes.Keys - rest)) - {id} == selected - (nodes.Keys - (rest - {id}))
  {
    assert nodes.Keys - (rest - {id}) == (nodes.Keys - rest) + {id};
  }

  /** The nodes with every id in `ids` moved by `offset`. */
  function MoveSelected(nodes: map<NodeId, NodeGeom>, ids: set<NodeId>, offset: Vec2): (r: map<NodeId, NodeGeom>)
    ensures SameLayout(nodes, r)
  {
    var r := map id | id in nodes :: if id in ids then MoveNode(nodes[id], offset) else nodes[id];
    assert Layout(nodes) == Layout(r);
    r
  }

  /** Moving one more node is one more in-place move. */
  lemma MoveSelectedStep(nodes: map<NodeId, NodeGeom>, done: set<NodeId>, id: NodeId, offset: Vec2)
    requires id in nodes && id !in done
    ensures var m := MoveSelected(nodes, done, offset);
      && m.Keys == nodes.Keys
      && MoveSelected(nodes, done + {id}, offset) == m[id := MoveNode(m[id], offset)]
  {
  }

  /**
   * Node `id` needs its input arcs recomputed after the selection moved:
   * it has a known wiring and either is selected itself with some input
   * wired, or has an input wired from a selected node.
   */
  function NeedsArcRefresh(id: NodeId, g: NodeGeom, selected: set<NodeId>): (r: bool)
    ensures r ==> g.lastState.Some? && selected != {}
  {
    && g.lastState.Some?
    && var sources := g.lastState.value.inputs;
       || (id in selected && exists i :: 0 <= i < |sources| && sources[i].Some?)
       || (exists i :: 0 <= i < |sources| && sources[i].Some? && sources[i].value in selected)
  }

  /** `added` asks, once each and without overrides, for exactly the nodes that need new arcs. */
  ghost predicate RefreshesMovedArcs(added: seq<ArcRequest>, nodes: map<NodeId, NodeGeom>, selected: set<NodeId>) {
    && NoDup(added)
    && (forall k :: 0 <= k < |added| ==> added[k].overwrites == map[])
    && (forall id :: ArcRequest(id, map[]) in added <==> id in nodes && NeedsArcRefresh(id, nodes[id], selected))
  }

  /** With nothing selected a move refreshes no arcs. */
  lemma {:induction false} NothingToRefresh(added: seq<ArcRequest>, nodes: map<NodeId, NodeGeom>)
    requires RefreshesMovedArcs(added, nodes, {})
    ensures added == []
  {
    if added != [] {
      RequestListed(added, 0);
    }
  }

  /** A request without overrides is listed under its node. */
  lemma RequestListed(added: seq<ArcRequest>, k: nat)
    requires k < |added| && added[k].overwrites == map[]
    ensures ArcRequest(added[k].node, map[]) in added
  {
  }

  /**
   * What a pointer move adds to the request log: the refreshes of a drag,
   * if the left button is held, followed by the preview's request.
   */
  ghost predicate MoveLog(added: seq<ArcRequest>, nodes: map<NodeId, NodeGeom>, c: PartialConnection, selected: set<NodeId>, drag: bool) {
    var k := |added| - |PreviewRequests(nodes, c)|;
    && 0 <= k
    && added[k..] == PreviewRequests(nodes, c)
    && (if drag then RefreshesMovedArcs(added[..k], nodes, selected) else k == 0)
  }

  /** With nothing selected, a move logs only the preview's request. */
  lemma {:induction false} MoveLogUnselected(added: seq<ArcRequest>, nodes: map<NodeId, NodeGeom>, c: PartialConnection, drag: bool)
    requires MoveLog(added, nodes, c, {}, drag)
    ensures added == PreviewRequests(nodes, c)
  {
    var k := |added| - |PreviewRequests(nodes, c)|;
    if drag {
      NothingToRefresh(added[..k], nodes);
    }
    assert added == added[..k] + added[k..];
  }

  /** With nothing selected, a move appends only the preview's request to the log. */
  lemma {:induction false} ReleaseLog(before: seq<ArcRequest>, after: seq<ArcRequest>, nodes: map<NodeId, NodeGeom>, c: PartialConnection, drag: bool)
    requires |before| <= |after| && after[..|before|] == before
    requires MoveLog(after[|before|..], nodes, c, {}, drag)
    ensures after == before + PreviewRequests(nodes, c)
  {
    MoveLogUnselected(after[|before|..], nodes, c, drag);
    assert after == after[..|before|] + after[|before|..];
  }

  /** Moving an empty selection leaves every node where it is. */
  lemma MoveNothing(nodes: map<NodeId, NodeGeom>, offset: Vec2)
    ensures MoveSelected(nodes, {}, offset) == nodes
  {
    assert MoveSelected(nodes, {}, offset) == nodes;
  }

  /** The target a move acts on: the captured drag target when there is one, else the hit target. */
  function EffectiveTarget(dragging: Option<MouseTarget>, hit: MouseTarget): MouseTarget {
    if dragging.Some? then dragging.value else hit
  }

  /**
   * The preview segment after a pointer move to `mouse`: it always ends at
   * the pointer; for a pending output it starts at the output's node and
   * takes the output's fill; for a pending input with a known wiring it takes
   * the input's stroke.
   */
  function PreviewAfter(nodes: map<NodeId, NodeGeom>, c: PartialConnection, p: Preview, mouse: Vec2): (r: Preview)
    requires ConnectionValid(nodes, c)
    ensures c.NoPending? ==> r == p
    ensures !c.NoPending? ==> r.to == mouse
    ensures c.PendingInput? ==> r.from == p.from
    ensures c.PendingOutput? && nodes[c.id].output.Some? ==>
      r.from == nodes[c.id].position && r.stroke == Some(nodes[c.id].output.value.fill)
  {
    match c
    case NoPending => p
    case PendingOutput(id, _) =>
      if nodes[id].output.Some?
      then Preview(nodes[id].position, mouse, Some(nodes[id].output.value.fill))
      else p.(to := mouse)
    case PendingInput(id, index, _) =>
      if nodes[id].lastState.Some?
      then p.(to := mouse, stroke := Some(nodes[id].inputs[index].stroke))
      else p.(to := mouse)
  }

  /** A pending input with a known wiring has its arcs recomputed with that input wired to the pointer. */
  function PreviewRequests(nodes: map<NodeId, NodeGeom>, c: PartialConnection): (r: seq<ArcRequest>)
    ensures |r| <= 1
    ensures forall q :: q in r ==> c.PendingInput? && q == ArcRequest(c.id, map[c.index := PointerId])
    ensures r != [] <==> c.PendingInput? && c.id in nodes && nodes[c.id].lastState.Some?
  {
    if c.PendingInput? && c.id in nodes && nodes[c.id].lastState.Some?
    then [ArcRequest(c.id, map[c.index := PointerId])]
    else []
  }

  /**
   * Cancelling a pending input with a known wiring has its arcs recomputed
   * once more, with no override, to drop the arc that followed the pointer.
   */
  function CancelRequests(nodes: map<NodeId, NodeGeom>, c: PartialConnection): (r: seq<ArcRequest>)
    ensures |r| <= 1
    ensures forall q :: q in r ==> c.PendingInput? && q == ArcRequest(c.id, map[])
    ensures r != [] <==> c.PendingInput? && c.id in nodes && nodes[c.id].lastState.Some?
  {
    if c.PendingInput? && c.id in nodes && nodes[c.id].lastState.Some?
    then [ArcRequest(c.id, map[])]
    else []
  }

  /**
   * The highlights and geometry after a button release: every node is
   * unselected, then the pointer moves onto `hit` with nothing captured.
   */
  function ReleaseScene(nodes: map<NodeId, NodeGeom>, c: PartialConnection, h: HoverRefs, hit: MouseTarget, idle: bool): (r: Scene)
    requires HoverRefsValid(nodes, h) && TargetValid(nodes, hit)
    ensures SameLayout(nodes, r.nodes)
  {
    var n1 := ClearBackgrounds(nodes, nodes.Keys);
    SameLayoutKeepsHoverRefs(nodes, n1, h);
    SameLayoutKeepsTarget(nodes, n1, hit);
    TrackAll(n1, c, h, hit, idle)
  }

  /** A release is the move step on the cleared nodes. */
  lemma ReleaseSceneIs(nodes: map<NodeId, NodeGeom>, c: PartialConnection, h: HoverRefs, hit: MouseTarget, idle: bool)
    requires HoverRefsValid(nodes, h) && TargetValid(nodes, hit)
    ensures var n1 := ClearBackgrounds(nodes, nodes.Keys);
      && HoverRefsValid(n1, h) && TargetValid(n1, hit)
      && ReleaseScene(nodes, c, h, hit, idle) == TrackAll(n1, c, h, hit, idle)
  {
    var n1 := ClearBackgrounds(nodes, nodes.Keys);
    SameLayoutKeepsHoverRefs(nodes, n1, h);
    SameLayoutKeepsTarget(nodes, n1, hit);
  }

  /**
   * After a release no node shows the selected fill: every fill is gone
   * except the hover fill of a node under an idle pointer.
   */
  lemma {:induction false} ReleaseClearsSelection(nodes: map<NodeId, NodeGeom>, c: PartialConnection, h: HoverRefs, hit: MouseTarget, idle: bool)
    requires HoverRefsValid(nodes, h) && TargetValid(nodes, hit)
    ensures var r := ReleaseScene(nodes, c, h, hit, idle);
      && r.nodes.Keys == nodes.Keys
      && forall id :: id in r.nodes ==>
           || r.nodes[id].background.None?
           || (idle && hit == NodeTarget(id) && r.nodes[id].background == Some(HoverFill))
  {
    var n1 := ClearBackgrounds(nodes, nodes.Keys);
    SameLayoutKeepsHoverRefs(nodes, n1, h);
    SameLayoutKeepsTarget(nodes, n1, hit);
    LayoutKeys(nodes, n1);
    TrackAllFills(n1, c, h, hit, idle);
    LayoutKeys(nodes, ReleaseScene(nodes, c, h, hit, idle).nodes);
  }

  /**
   * Whether `input` is in a pending output's unconnectable set, found by
   * comparing node and index of each member in turn.
   */
  method IsUnconnectableInput(unconnectable: set<InputRef>, input: InputRef) returns (found: bool)
    ensures found <==> input in unconnectable
  {
    var rest := unconnectable;
    while rest != {}
      invariant rest <= unconnectable
      invariant input in unconnectable ==> input in rest
      decreases |rest|
    {
      var r :| r in rest;
      if r.index == input.index && r.id == input.id {
        return true;
      }
      rest := rest - {r};
    }
    return false;
  }

  /** The double-click handler: a node opens its editor, anything else does nothing. */
  method OnDoubleClick(hit: MouseTarget) returns (action: ForeignAction)
    ensures action != Nothing <==> hit.NodeTarget?
    ensures hit.NodeTarget? ==> action == EditNode(hit.id)
  {
    if hit.NodeTarget? {
      return EditNode(hit.id);
    }
    return Nothing;
  }

  class EditorState {
    var nodes: map<NodeId, NodeGeom>
    var zOrder: seq<NodeId>
    var selectedNodes: set<NodeId>
    var connection: PartialConnection
    var connectionPreview: Preview
    var dragging: Option<MouseTarget>
    // The remembered hover highlight of each category.
    var selectedOutput: Option<NodeId>
    var selectedInput: Option<InputRef>
    var selectedNode: Option<NodeId>
    var selectedConnection: Option<InputRef>
    // Requests made to the wiring collaborator, oldest first.
    var arcRequests: seq<ArcRequest>

    /**
     * The draw order lists every node exactly once, the selection, the
     * pending connection, the hover references and the drag target name
     * existing nodes and pins, and no wiring override is left behind.
     */
    ghost predicate Valid()
      reads this
    {
      CacheValid(nodes, zOrder, selectedNodes, connection, selectedOutput, selectedInput, selectedConnection, selectedNode, dragging)
    }

    /** The empty cache a new editor view starts from. */
    constructor ()
      ensures Valid()
      ensures nodes == map[] && zOrder == [] && selectedNodes == {}
      ensures connection == NoPending && dragging == None
      ensures connectionPreview == Preview(Vec2(0, 0), Vec2(0, 0), None)
      ensures selectedOutput == None && selectedInput == None
      ensures selectedNode == None && selectedConnection == None
      ensures arcRequests == []
    {
      nodes := map[];
      zOrder := [];
      selectedNodes := {};
      connection := NoPending;
      connectionPreview := Preview(Vec2(0, 0), Vec2(0, 0), None);
      dragging := None;
      selectedOutput := None;
      selectedInput := None;
      selectedNode := None;
      selectedConnection := None;
      arcRequests := [];
    }

    /**
     * Adds node `id` to the selection, drops a hover reference to it,
     * brings it to the front of the draw order and fills its background
     * with the selected colour.
     */
    method SelectNode(id: NodeId)
      requires Valid() && id in nodes
      modifies this`selectedNodes, this`selectedNode, this`zOrder, this`nodes
      ensures Valid()
      ensures selectedNodes == old(selectedNodes) + {id}
      ensures selectedNode == if old(selectedNode) == Some(id) then None else old(selectedNode)
      ensures zOrder == BringToFront(old(zOrder), id)
      ensures nodes == WithBackground(old(nodes), id, Some(SelectedFill))
    {
      selectedNodes := selectedNodes + {id};
      if selectedNode == Some(id) {
        selectedNode := None;
      }
      assert OrderValid(BringToFront(zOrder, id), selectedNodes, nodes.Keys) by {
        BringToFrontShape(zOrder, id);
      }
      zOrder := RemoveFirst(zOrder, id);
      zOrder := zOrder + [id];
      SetBackground(id, Some(SelectedFill));
    }

    /** Removes node `id` from the selection and clears its background fill. */
    method UnselectNode(id: NodeId)
      requires id in nodes
      modifies this`selectedNodes, this`nodes
      ensures selectedNodes == old(selectedNodes) - {id}
      ensures nodes == WithBackground(old(nodes), id, None)
    {
      selectedNodes := selectedNodes - {id};
      nodes := WithBackground(nodes, id, None);
    }

    /**
     * Puts back the saved colour of every unconnectable pin of the pending
     * connection: the input strokes of a pending output, the output fills
     * of a pending input.
     */
    method ResetUnconnectableColor()
      requires Valid()
      modifies this`nodes
      ensures Valid()
      ensures nodes == RestoreUnconnectable(old(nodes), connection)
    {
      match connection
      case NoPending =>
      case PendingOutput(_, u) =>
        ResetInputStrokes(u);
      case PendingInput(_, _, u) =>
        ResetOutputFills(u);
      assert RefsValid(nodes, connection, selectedOutput, selectedInput, selectedConnection, selectedNode, dragging) by {
        RestoreUnconnectableEffect(old(nodes), connection);
        SameLayoutKeepsRefs(old(nodes), nodes, connection, selectedOutput, selectedInput, selectedConnection, selectedNode, dragging);
      }
    }

    /** The loop over a pending output's unconnectable inputs, resetting each stroke. */
    method ResetInputStrokes(u: set<InputRef>)
      requires forall r :: r in u ==> IsInput(nodes, r)
      modifies this`nodes
      ensures nodes == RestoreInputStrokes(old(nodes), u)
    {
      var rest := u;
      RestoreNothing(nodes);
      assert u - rest == {};
      while rest != {}
        invariant rest <= u
        invariant nodes == RestoreInputStrokes(old(nodes), u - rest)
        decreases |rest|
      {
        var r :| r in rest;
        RestoreInputStrokesStep(old(nodes), u - rest, r);
        nodes := WithInputReset(nodes, r);
        assert u - rest + {r} == u - (rest - {r});
        rest := rest - {r};
      }
      assert u - rest == u;
    }

    /** The loop over a pending input's unconnectable outputs, resetting each fill. */
    method ResetOutputFills(u: set<NodeId>)
      requires forall o :: o in u ==> HasOutput(nodes, o)
      modifies this`nodes
      ensures nodes == RestoreOutputFills(old(nodes), u)
    {
      var rest := u;
      RestoreNothing(nodes);
      assert u - rest == {};
      while rest != {}
        invariant rest <= u
        invariant nodes == RestoreOutputFills(old(nodes), u - rest)
        decreases |rest|
      {
        var o :| o in rest;
        RestoreOutputFillsStep(old(nodes), u - rest, o);
        nodes := WithOutputReset(nodes, o);
        assert u - rest + {o} == u - (rest - {o});
        rest := rest - {o};
      }
      assert u - rest == u;
    }

    /** Ends the pending connection, restoring its colours, and asks the controller to connect the two pins. */
    method CreateConnection(output: NodeId, input: InputRef) returns (action: ForeignAction)
      requires Valid()
      modifies this`nodes, this`connection
      ensures Valid()
      ensures nodes == RestoreUnconnectable(old(nodes), old(connection))
      ensures connection == NoPending
      ensures action == ForeignAction.CreateConnection(output, input.id, input.index)
    {
      ResetUnconnectableColor();
      connection := NoPending;
      return ForeignAction.CreateConnection(output, input.id, input.index);
    }

    /** Moves the preview segment to follow the pointer at `mouse`. */
    method UpdateConnectionPreview(mouse: Vec2)
      requires Valid()
      modifies this`nodes, this`connectionPreview, this`arcRequests
      ensures Valid()
      ensures nodes == old(nodes)
      ensures connectionPreview == PreviewAfter(nodes, connection, old(connectionPreview), mouse)
      ensures arcRequests == old(arcRequests) + PreviewRequests(nodes, connection)
    {
      match connection
      case NoPending =>
      case PendingOutput(id, _) =>
        connectionPreview := connectionPreview.(to := mouse);
        if nodes[id].output.Some? {
          connectionPreview := connectionPreview.(stroke := Some(nodes[id].output.value.fill), from := nodes[id].position);
        }
      case PendingInput(id, index, _) =>
        connectionPreview := connectionPreview.(to := mouse);
        if nodes[id].lastState.Some? {
          ghost var g := nodes[id];
          nodes := nodes[id := nodes[id].(inputOverwrites := map[index := PointerId])];
          arcRequests := arcRequests + [ArcRequest(id, nodes[id].inputOverwrites)];
          nodes := nodes[id := nodes[id].(inputOverwrites := map[])];
          assert nodes[id] == g;
          assert nodes == old(nodes)[id := g];
          connectionPreview := connectionPreview.(stroke := Some(nodes[id].inputs[index].stroke));
        }
    }

    /**
     * A click on the output of node `output`: completes a pending input
     * unless the output is unconnectable for it, otherwise starts a fresh
     * pending output.
     */
    method SelectOutput(output: NodeId, mouse: Vec2) returns (action: ForeignAction)
      requires Valid() && HasOutput(nodes, output)
      modifies this`nodes, this`connection, this`connectionPreview, this`arcRequests
      ensures Valid()
      ensures var step := ClickOutput(old(connection), output);
        && connection == step.next && action == step.action
        && nodes == if step.restores then RestoreUnconnectable(old(nodes), old(connection)) else old(nodes)
      ensures connectionPreview
        == if action.SelectOutput? then PreviewAfter(nodes, connection, old(connectionPreview), mouse)
           else old(connectionPreview)
      ensures arcRequests == old(arcRequests)
    {
      if connection.PendingInput? {
        if output in connection.unconnectableOutputs {
          return Nothing;
        }
        action := CreateConnection(output, InputRef(connection.id, connection.index));
        return;
      }
      connection := PendingOutput(output, {});
      UpdateConnectionPreview(mouse);
      return ForeignAction.SelectOutput(output);
    }

    /**
     * A click on an input pin: completes a pending output unless the pin
     * is unconnectable for it, otherwise replaces a pending input (restoring
     * its colours) or starts a fresh one.
     */
    method SelectInput(input: InputRef, mouse: Vec2) returns (action: ForeignAction)
      requires Valid() && IsInput(nodes, input)
      modifies this`nodes, this`connection, this`connectionPreview, this`arcRequests
      ensures Valid()
      ensures var step := ClickInput(old(connection), input);
        && connection == step.next && action == step.action
        && nodes == if step.restores then RestoreUnconnectable(old(nodes), old(connection)) else old(nodes)
      ensures connectionPreview
        == if action.SelectInput? then PreviewAfter(nodes, connection, old(connectionPreview), mouse)
           else old(connectionPreview)
      ensures arcRequests
        == if action.SelectInput? then old(arcRequests) + PreviewRequests(nodes, connection)
           else old(arcRequests)
    {
      if connection.PendingOutput? {
        var rejected := IsUnconnectableInput(connection.unconnectableInputs, input);
        if rejected {
          return Nothing;
        }
        action := CreateConnection(connection.id, input);
        return;
      }
      if connection.PendingInput? {
        ResetUnconnectableColor();
      }
      connection := PendingInput(input.id, input.index, {});
      UpdateConnectionPreview(mouse);
      return ForeignAction.SelectInput(input.id, input.index);
    }

    // Attribute writes that keep the layout, and with it the cache's validity.

    method SetOutputRadius(id: NodeId, w: Width)
      requires Valid() && HasOutput(nodes, id)
      modifies this`nodes
      ensures Valid()
      ensures nodes == WithOutputRadius(old(nodes), id, w)
    {
      assert RefsValid(WithOutputRadius(nodes, id, w), connection,
                       selectedOutput, selectedInput, selectedConnection, selectedNode, dragging) by {
        UpdateKeepsLayout(nodes, id, nodes[id].(output := Some(nodes[id].output.value.(r := w))));
        SameLayoutKeepsRefs(nodes, WithOutputRadius(nodes, id, w), connection,
          selectedOutput, selectedInput, selectedConnection, selectedNode, dragging);
      }
      nodes := WithOutputRadius(nodes, id, w);
    }

    method SetInputWeight(p: InputRef, w: Width)
      requires Valid() && IsInput(nodes, p)
      modifies this`nodes
      ensures Valid()
      ensures nodes == WithInputWeight(old(nodes), p, w)
    {
      assert RefsValid(WithInputWeight(nodes, p, w), connection,
                       selectedOutput, selectedInput, selectedConnection, selectedNode, dragging) by {
        var g := nodes[p.id];
        UpdateKeepsLayout(nodes, p.id, g.(inputs := g.inputs[p.index := g.inputs[p.index].(weight := w)]));
        SameLayoutKeepsRefs(nodes, WithInputWeight(nodes, p, w), connection,
          selectedOutput, selectedInput, selectedConnection, selectedNode, dragging);
      }
      nodes := WithInputWeight(nodes, p, w);
    }

    method SetLineWeight(p: InputRef, w: Width)
      requires Valid() && IsLine(nodes, p)
      modifies this`nodes
      ensures Valid()
      ensures nodes == WithLineWeight(old(nodes), p, w)
    {
      assert RefsValid(WithLineWeight(nodes, p, w), connection,
                       selectedOutput, selectedInput, selectedConnection, selectedNode, dragging) by {
        var g := nodes[p.id];
        UpdateKeepsLayout(nodes, p.id, g.(connections := g.connections[p.index := g.connections[p.index].(weight := w)]));
        SameLayoutKeepsRefs(nodes, WithLineWeight(nodes, p, w), connection,
          selectedOutput, selectedInput, selectedConnection, selectedNode, dragging);
      }
      nodes := WithLineWeight(nodes, p, w);
    }

    method SetBackground(id: NodeId, fill: Option<BackgroundFill>)
      requires Valid() && id in nodes
      modifies this`nodes
      ensures Valid()
      ensures nodes == WithBackground(old(nodes), id, fill)
    {
      assert RefsValid(WithBackground(nodes, id, fill), connection,
                       selectedOutput, selectedInput, selectedConnection, selectedNode, dragging) by {
        UpdateKeepsLayout(nodes, id, nodes[id].(background := fill));
        SameLayoutKeepsRefs(nodes, WithBackground(nodes, id, fill), connection,
          selectedOutput, selectedInput, selectedConnection, selectedNode, dragging);
      }
      nodes := WithBackground(nodes, id, fill);
    }

    /** The unselect loop of the mouse-up handler: every node is unselected. */
    method UnselectAllNodes()
      requires Valid()
      modifies this`nodes, this`selectedNodes
      ensures Valid()
      ensures nodes == ClearBackgrounds(old(nodes), old(nodes).Keys)
      ensures selectedNodes == {}
    {
      ghost var n0 := nodes;
      UnselectEach();
      assert OrderValid(zOrder, selectedNodes, nodes.Keys) by {
        LayoutKeys(n0, nodes);
      }
      assert RefsValid(nodes, connection, selectedOutput, selectedInput, selectedConnection, selectedNode, dragging) by {
        assert SameLayout(n0, nodes);
        SameLayoutKeepsRefs(n0, nodes, connection, selectedOutput, selectedInput, selectedConnection, selectedNode, dragging);
      }
    }

    /** The loop of `UnselectAllNodes`, one `UnselectNode` per node. */
    method UnselectEach()
      modifies this`nodes, this`selectedNodes
      ensures nodes == ClearBackgrounds(old(nodes), old(nodes).Keys)
      ensures selectedNodes == old(selectedNodes) - old(nodes).Keys
    {
      ghost var n0 := nodes;
      var rest := nodes.Keys;
      assert ClearBackgrounds(n0, {}) == n0;
      assert n0.Keys - rest == {};
      while rest != {}
        invariant rest <= n0.Keys
        invariant nodes == ClearBackgrounds(n0, n0.Keys - rest)
        invariant selectedNodes == old(selectedNodes) - (n0.Keys - rest)
        decreases |rest|
      {
        var id :| id in rest;
        ClearBackgroundsStep(n0, old(selectedNodes), rest, id);
        UnselectNode(id);
        rest := rest - {id};
      }
      assert n0.Keys - rest == n0.Keys;
    }

    /** The move loop of the drag handler. */
    method MoveSelectedNodes(offset: Vec2)
      requires selectedNodes <= nodes.Keys
      modifies this`nodes
      ensures nodes == MoveSelected(old(nodes), selectedNodes, offset)
    {
      ghost var n0 := nodes;
      var rest := selectedNodes;
      assert MoveSelected(n0, {}, offset) == n0;
      assert selectedNodes - rest == {};
      while rest != {}
        invariant rest <= selectedNodes
        invariant nodes == MoveSelected(n0, selectedNodes - rest, offset)
        decreases |rest|
      {
        var id :| id in rest;
        MoveSelectedStep(n0, selectedNodes - rest, id, offset);
        nodes := nodes[id := MoveNode(nodes[id], offset)];
        assert selectedNodes - (rest - {id}) == (selectedNodes - rest) + {id};
        rest := rest - {id};
      }
      assert selectedNodes - rest == selectedNodes;
    }

    /** The refresh loop of the drag handler: one request per node that needs it. */
    method RefreshMovedArcs()
      modifies this`arcRequests
      ensures |arcRequests| >= |old(arcRequests)| && arcRequests[..|old(arcRequests)|] == old(arcRequests)
      ensures RefreshesMovedArcs(arcRequests[|old(arcRequests)|..], nodes, selectedNodes)
    {
      ghost var added: seq<ArcRequest> := [];
      var pending := nodes.Keys;
      while pending != {}
        invariant pending <= nodes.Keys
        invariant arcRequests == old(arcRequests) + added
        invariant NoDup(added)
        invariant forall k :: 0 <= k < |added| ==>
          added[k].overwrites == map[] && added[k].node in nodes && added[k].node !in pending
        invariant forall id :: ArcRequest(id, map[]) in added <==>
          id in nodes && id !in pending && NeedsArcRefresh(id, nodes[id], selectedNodes)
        decreases |pending|
      {
        var id :| id in pending;
        if NeedsArcRefresh(id, nodes[id], selectedNodes) {
          arcRequests := arcRequests + [ArcRequest(id, map[])];
          added := added + [ArcRequest(id, map[])];
        }
        pending := pending - {id};
      }
      assert arcRequests[|old(arcRequests)|..] == added;
    }

    /**
     * Moves every selected node by `offset`, then asks the wiring
     * collaborator to recompute the arcs of every node that needs it.
     */
    method MoveNodes(offset: Vec2)
      requires Valid()
      modifies this`nodes, this`arcRequests
      ensures Valid()
      ensures nodes == MoveSelected(old(nodes), selectedNodes, offset)
      ensures |arcRequests| >= |old(arcRequests)| && arcRequests[..|old(arcRequests)|] == old(arcRequests)
      ensures RefreshesMovedArcs(arcRequests[|old(arcRequests)|..], nodes, selectedNodes)
    {
      ghost var n0 := nodes;
      MoveSelectedNodes(offset);
      assert OrderValid(zOrder, selectedNodes, nodes.Keys) by {
        LayoutKeys(n0, nodes);
      }
      assert RefsValid(nodes, connection, selectedOutput, selectedInput, selectedConnection, selectedNode, dragging) by {
        SameLayoutKeepsRefs(n0, nodes, connection, selectedOutput, selectedInput, selectedConnection, selectedNode, dragging);
      }
      RefreshMovedArcs();
    }

    // Hover highlighting; see module Hover for what each step does.

    method HoverOutput(t: MouseTarget)
      requires Valid() && TargetValid(nodes, t)
      modifies this`nodes, this`selectedOutput
      ensures Valid()
      ensures Highlight(selectedOutput, nodes) == HoverOutputOn(old(nodes), connection, old(selectedOutput), t)
    {
      if t.OutputTarget? && selectedOutput != Some(t.id) {
        if selectedOutput.Some? {
          SetOutputRadius(selectedOutput.value, Normal);
        }
        if OutputHoverAllowed(connection, t.id) {
          selectedOutput := Some(t.id);
          SetOutputRadius(t.id, Hovered);
        }
      }
    }

    method HoverInput(t: MouseTarget)
      requires Valid() && TargetValid(nodes, t)
      modifies this`nodes, this`selectedInput
      ensures Valid()
      ensures Highlight(selectedInput, nodes) == HoverInputOn(old(nodes), old(selectedInput), t)
    {
      if t.InputTarget? && selectedInput != Some(PinOf(t)) {
        if selectedInput.Some? {
          SetInputWeight(selectedInput.value, Normal);
        }
        selectedInput := Some(PinOf(t));
        SetInputWeight(PinOf(t), Hovered);
      }
    }

    method HoverConnection(t: MouseTarget)
      requires Valid() && TargetValid(nodes, t)
      modifies this`nodes, this`selectedConnection
      ensures Valid()
      ensures Highlight(selectedConnection, nodes) == HoverLineOn(old(nodes), old(selectedConnection), t)
    {
      if t.ConnectionTarget? && selectedConnection != Some(PinOf(t)) {
        if selectedConnection.Some? {
          SetLineWeight(selectedConnection.value, Normal);
        }
        selectedConnection := Some(PinOf(t));
        SetLineWeight(PinOf(t), Hovered);
      }
    }

    method HoverNode(t: MouseTarget)
      requires Valid() && TargetValid(nodes, t)
      modifies this`nodes, this`selectedNode
      ensures Valid()
      ensures Highlight(selectedNode, nodes) == HoverNodeOn(old(nodes), old(selectedNode), t)
    {
      if t.NodeTarget? && selectedNode != Some(t.id) {
        if selectedNode.Some? {
          SetBackground(selectedNode.value, None);
        }
        if nodes[t.id].background.None? {
          selectedNode := Some(t.id);
          SetBackground(t.id, Some(HoverFill));
        }
      }
    }

    method ClearOutputHover(t: MouseTarget)
      requires Valid()
      modifies this`nodes, this`selectedOutput
      ensures Valid()
      ensures Highlight(selectedOutput, nodes) == ClearOutputOn(old(nodes), old(selectedOutput), t)
    {
      if !t.OutputTarget? && selectedOutput.Some? {
        SetOutputRadius(selectedOutput.value, Normal);
        selectedOutput := None;
      }
    }

    method ClearInputHover(t: MouseTarget)
      requires Valid()
      modifies this`nodes, this`selectedInput
      ensures Valid()
      ensures Highlight(selectedInput, nodes) == ClearInputOn(old(nodes), old(selectedInput), t)
    {
      if !t.InputTarget? && selectedInput.Some? {
        SetInputWeight(selectedInput.value, Normal);
        selectedInput := None;
      }
    }

    method ClearConnectionHover(t: MouseTarget)
      requires Valid()
      modifies this`nodes, this`selectedConnection
      ensures Valid()
      ensures Highlight(selectedConnection, nodes) == ClearLineOn(old(nodes), old(selectedConnection), t)
    {
      if !t.ConnectionTarget? && selectedConnection.Some? {
        SetLineWeight(selectedConnection.value, Normal);
        selectedConnection := None;
      }
    }

    method ClearNodeHover(t: MouseTarget)
      requires Valid()
      modifies this`nodes, this`selectedNode
      ensures Valid()
      ensures Highlight(selectedNode, nodes) == ClearNodeOn(old(nodes), old(selectedNode), t)
    {
      if !t.NodeTarget? && selectedNode.Some? && nodes[selectedNode.value].background == Some(HoverFill) {
        SetBackground(selectedNode.value, None);
        selectedNode := None;
      }
    }

    // The four kinds touch disjoint state, so hovering and clearing one kind
    // at a time ends in the same state as all hovers followed by all clears.

    method TrackOutputHover(t: MouseTarget, idle: bool)
      requires Valid() && TargetValid(nodes, t)
      modifies this`nodes, this`selectedOutput
      ensures Valid()
      ensures Highlight(selectedOutput, nodes) == TrackOutputOn(old(nodes), connection, old(selectedOutput), t, idle)
    {
      if idle {
        HoverOutput(t);
      }
      ClearOutputHover(t);
    }

    method TrackInputHover(t: MouseTarget, idle: bool)
      requires Valid() && TargetValid(nodes, t)
      modifies this`nodes, this`selectedInput
      ensures Valid()
      ensures Highlight(selectedInput, nodes) == TrackInputOn(old(nodes), old(selectedInput), t, idle)
    {
      if idle {
        HoverInput(t);
      }
      ClearInputHover(t);
    }

    method TrackConnectionHover(t: MouseTarget, idle: bool)
      requires Valid() && TargetValid(nodes, t)
      modifies this`nodes, this`selectedConnection
      ensures Valid()
      ensures Highlight(selectedConnection, nodes) == TrackLineOn(old(nodes), old(selectedConnection), t, idle)
    {
      if idle {
        HoverConnection(t);
      }
      ClearConnectionHover(t);
    }

    method TrackNodeHover(t: MouseTarget, idle: bool)
      requires Valid() && TargetValid(nodes, t)
      modifies this`nodes, this`selectedNode
      ensures Valid()
      ensures Highlight(selectedNode, nodes) == TrackNodeOn(old(nodes), old(selectedNode), t, idle)
    {
      if idle {
        HoverNode(t);
      }
      ClearNodeHover(t);
    }

    /** The four hover references as one value. */
    function Hovers(): HoverRefs
      reads this`selectedOutput, this`selectedInput, this`selectedConnection, this`selectedNode
    {
      HoverRefs(selectedOutput, selectedInput, selectedConnection, selectedNode)
    }

    /** The output and input highlights of a pointer move. */
    method TrackPinHovers(t: MouseTarget, idle: bool)
      requires Valid() && TargetValid(nodes, t)
      modifies this`nodes, this`selectedOutput, this`selectedInput
      ensures Valid()
      ensures Scene(Hovers(), nodes) == TrackPins(old(nodes), connection, old(Hovers()), t, idle)
    {
      ghost var n0 := nodes;
      TrackOutputHover(t, idle);
      SameLayoutKeepsTarget(n0, nodes, t);
      TrackInputHover(t, idle);
    }

    /** The connection-line and node-background highlights of a pointer move. */
    method TrackRestHovers(t: MouseTarget, idle: bool)
      requires Valid() && TargetValid(nodes, t)
      modifies this`nodes, this`selectedConnection, this`selectedNode
      ensures Valid()
      ensures Scene(Hovers(), nodes) == TrackRest(old(nodes), old(Hovers()), t, idle)
    {
      ghost var n0 := nodes;
      TrackConnectionHover(t, idle);
      SameLayoutKeepsTarget(n0, nodes, t);
      TrackNodeHover(t, idle);
    }

    /** Every hover highlight of a pointer move. */
    method TrackHovers(t: MouseTarget, idle: bool)
      requires Valid() && TargetValid(nodes, t)
      modifies this`nodes, this`selectedOutput, this`selectedInput, this`selectedConnection, this`selectedNode
      ensures Valid()
      ensures Scene(Hovers(), nodes) == TrackAll(old(nodes), connection, old(Hovers()), t, idle)
    {
      ghost var n0 := nodes;
      TrackPinHovers(t, idle);
      SameLayoutKeepsTarget(n0, nodes, t);
      TrackRestHovers(t, idle);
    }

    /**
     * A press on the background: a pending input with a known wiring has
     * its arcs recomputed, the unconnectable colours are put back and the
     * pending connection is dropped.
     */
    method CancelConnection()
      requires Valid()
      modifies this`nodes, this`connection, this`arcRequests
      ensures Valid()
      ensures connection == NoPending
      ensures nodes == RestoreUnconnectable(old(nodes), old(connection))
      ensures arcRequests == old(arcRequests) + CancelRequests(old(nodes), old(connection))
    {
      if connection.PendingInput? && nodes[connection.id].lastState.Some? {
        arcRequests := arcRequests + [ArcRequest(connection.id, nodes[connection.id].inputOverwrites)];
      }
      ResetUnconnectableColor();
      connection := NoPending;
    }

    /**
     * The press handler. On a node: with the left button and the control key
     * it asks to jump to the node, with the right button to edit it;
     * otherwise it selects the node and captures it for dragging. On the
     * background it cancels the pending connection and captures the
     * background. On a pin it clicks that pin; on a line it asks to delete
     * the connection.
     */
    method OnMouseDown(hit: MouseTarget, buttons: Buttons, ctrl: bool, mouse: Vec2) returns (action: ForeignAction)
      requires Valid() && TargetValid(nodes, hit)
      modifies this`nodes, this`zOrder, this`selectedNodes, this`selectedNode, this`connection
      modifies this`connectionPreview, this`arcRequests, this`dragging
      ensures Valid()
      ensures hit.NodeTarget? && buttons.left && ctrl ==> action == Goto(hit.id) && unchanged(this)
      ensures hit.NodeTarget? && !(buttons.left && ctrl) && buttons.right ==> action == EditNode(hit.id) && unchanged(this)
      ensures hit.NodeTarget? && !(buttons.left && ctrl) && !buttons.right ==>
        && action == Nothing
        && selectedNodes == old(selectedNodes) + {hit.id}
        && selectedNode == (if old(selectedNode) == Some(hit.id) then None else old(selectedNode))
        && zOrder == BringToFront(old(zOrder), hit.id)
        && nodes == WithBackground(old(nodes), hit.id, Some(SelectedFill))
        && dragging == Some(hit)
        && unchanged(this`connection, this`connectionPreview, this`arcRequests)
      ensures hit.NoTarget? ==>
        && action == Nothing
        && connection == NoPending
        && nodes == RestoreUnconnectable(old(nodes), old(connection))
        && arcRequests == old(arcRequests) + CancelRequests(old(nodes), old(connection))
        && dragging == Some(NoTarget)
        && unchanged(this`zOrder, this`selectedNodes, this`selectedNode, this`connectionPreview)
      ensures hit.InputTarget? ==>
        && (var step := ClickInput(old(connection), PinOf(hit));
            && connection == step.next && action == step.action
            && nodes == if step.restores then RestoreUnconnectable(old(nodes), old(connection)) else old(nodes))
        && connectionPreview
             == (if action.SelectInput? then PreviewAfter(nodes, connection, old(connectionPreview), mouse)
                 else old(connectionPreview))
        && arcRequests
             == (if action.SelectInput? then old(arcRequests) + PreviewRequests(nodes, connection)
                 else old(arcRequests))
        && unchanged(this`zOrder, this`selectedNodes, this`selectedNode, this`dragging)
      ensures hit.OutputTarget? ==>
        && (var step := ClickOutput(old(connection), hit.id);
            && connection == step.next && action == step.action
            && nodes == if step.restores then RestoreUnconnectable(old(nodes), old(connection)) else old(nodes))
        && connectionPreview
             == (if action.SelectOutput? then PreviewAfter(nodes, connection, old(connectionPreview), mouse)
                 else old(connectionPreview))
        && unchanged(this`zOrder, this`selectedNodes, this`selectedNode, this`dragging, this`arcRequests)
      ensures hit.ConnectionTarget? ==> action == DeleteConnection(hit.id, hit.index) && unchanged(this)
    {
      match hit {
        case NodeTarget(id) =>
          if buttons.left && ctrl {
            return Goto(id);
          }
          if buttons.right {
            return EditNode(id);
          }
          SelectNode(id);
          dragging := Some(hit);
          return Nothing;
        case NoTarget =>
          CancelConnection();
          dragging := Some(hit);
          return Nothing;
        case InputTarget(id, index) =>
          action := SelectInput(InputRef(id, index), mouse);
        case OutputTarget(id) =>
          action := SelectOutput(id, mouse);
        case ConnectionTarget(id, index) =>
          return DeleteConnection(id, index);
      }
    }

    /**
     * The part of a pointer move after the highlights: a held left button
     * drags the selection, then the connection preview follows the pointer.
     */
    method FollowPointer(drag: bool, mouse: Vec2, offset: Vec2)
      requires Valid()
      modifies this`nodes, this`connectionPreview, this`arcRequests
      ensures Valid()
      ensures nodes == (if drag then MoveSelected(old(nodes), selectedNodes, offset) else old(nodes))
      ensures connectionPreview == PreviewAfter(nodes, connection, old(connectionPreview), mouse)
      ensures |old(arcRequests)| <= |arcRequests| && arcRequests[..|old(arcRequests)|] == old(arcRequests)
      ensures MoveLog(arcRequests[|old(arcRequests)|..], nodes, connection, selectedNodes, drag)
    {
      if drag {
        MoveNodes(offset);
      }
      ghost var a1 := arcRequests;
      UpdateConnectionPreview(mouse);
      assert arcRequests == a1 + PreviewRequests(nodes, connection);
      assert arcRequests[|old(arcRequests)|..] == a1[|old(arcRequests)|..] + PreviewRequests(nodes, connection);
    }

    /**
     * The pointer-move handler. It acts on the captured drag target if there
     * is one, else on the hit target; hover highlights follow that target
     * while no button is held and are dropped once it is left; a held left
     * button drags the selection; the connection preview follows the pointer.
     */
    method OnMouseMove(hit: MouseTarget, buttons: Buttons, mouse: Vec2, offset: Vec2) returns (action: ForeignAction)
      requires Valid() && TargetValid(nodes, hit)
      modifies this`nodes, this`selectedOutput, this`selectedInput, this`selectedConnection, this`selectedNode
      modifies this`connectionPreview, this`arcRequests
      ensures Valid()
      ensures action == Nothing
      ensures var s := TrackAll(old(nodes), connection, old(Hovers()), EffectiveTarget(dragging, hit), buttons.NonePressed());
        && Hovers() == s.refs
        && nodes == (if buttons.left then MoveSelected(s.nodes, selectedNodes, offset) else s.nodes)
      ensures connectionPreview == PreviewAfter(nodes, connection, old(connectionPreview), mouse)
      ensures |old(arcRequests)| <= |arcRequests| && arcRequests[..|old(arcRequests)|] == old(arcRequests)
      ensures MoveLog(arcRequests[|old(arcRequests)|..], nodes, connection, selectedNodes, buttons.left)
    {
      TrackHovers(EffectiveTarget(dragging, hit), buttons.NonePressed());
      FollowPointer(buttons.left, mouse, offset);
      action := Nothing;
    }

    /** The first half of a release: every node is unselected and the drag capture ends. */
    method ReleaseNodes()
      requires Valid()
      modifies this`nodes, this`selectedNodes, this`dragging
      ensures Valid()
      ensures nodes == ClearBackgrounds(old(nodes), old(nodes).Keys)
      ensures selectedNodes == {} && dragging == None
    {
      UnselectAllNodes();
      dragging := None;
    }

    /** A pointer move with nothing selected and nothing captured. */
    method MoveUnselected(hit: MouseTarget, buttons: Buttons, mouse: Vec2, offset: Vec2) returns (action: ForeignAction)
      requires Valid() && TargetValid(nodes, hit)
      requires selectedNodes == {} && dragging == None
      modifies this`nodes, this`selectedOutput, this`selectedInput, this`selectedConnection, this`selectedNode
      modifies this`connectionPreview, this`arcRequests
      ensures Valid()
      ensures action == Nothing
      ensures Scene(Hovers(), nodes) == TrackAll(old(nodes), connection, old(Hovers()), hit, buttons.NonePressed())
      ensures connectionPreview == PreviewAfter(nodes, connection, old(connectionPreview), mouse)
      ensures arcRequests == old(arcRequests) + PreviewRequests(nodes, connection)
    {
      MoveNothing(TrackAll(nodes, connection, Hovers(), hit, buttons.NonePressed()).nodes, offset);
      action := OnMouseMove(hit, buttons, mouse, offset);
      ReleaseLog(old(arcRequests), arcRequests, nodes, connection, buttons.left);
    }

    /**
     * The second half of a release: a pointer move from the nodes of
     * `before` with every background cleared, the hover references `h`,
     * nothing selected and nothing captured.
     */
    method MoveAfterRelease(ghost before: map<NodeId, NodeGeom>, ghost h: HoverRefs, hit: MouseTarget, buttons: Buttons, mouse: Vec2, offset: Vec2)
      returns (action: ForeignAction)
      requires Valid() && HoverRefsValid(before, h) && TargetValid(before, hit)
      requires selectedNodes == {} && dragging == None
      requires nodes == ClearBackgrounds(before, before.Keys) && Hovers() == h
      modifies this`nodes, this`selectedOutput, this`selectedInput, this`selectedConnection, this`selectedNode
      modifies this`connectionPreview, this`arcRequests
      ensures Valid()
      ensures action == Nothing
      ensures Scene(Hovers(), nodes) == ReleaseScene(before, connection, h, hit, buttons.NonePressed())
      ensures connectionPreview == PreviewAfter(nodes, connection, old(connectionPreview), mouse)
      ensures arcRequests == old(arcRequests) + PreviewRequests(nodes, connection)
    {
      ReleaseSceneIs(before, connection, h, hit, buttons.NonePressed());
      action := MoveUnselected(hit, buttons, mouse, offset);
    }

    /**
     * The release handler: every node is unselected, the drag capture ends
     * and the release is handled as a move onto the hit target.
     */
    method OnMouseUp(hit: MouseTarget, buttons: Buttons, mouse: Vec2, offset: Vec2) returns (action: ForeignAction)
      requires Valid() && TargetValid(nodes, hit)
      modifies this`nodes, this`selectedNodes, this`dragging
      modifies this`selectedOutput, this`selectedInput, this`selectedConnection, this`selectedNode
      modifies this`connectionPreview, this`arcRequests
      ensures Valid()
      ensures action == Nothing
      ensures selectedNodes == {} && dragging == None
      ensures Scene(Hovers(), nodes) == ReleaseScene(old(nodes), connection, old(Hovers()), hit, buttons.NonePressed())
      ensures connectionPreview == PreviewAfter(nodes, connection, old(connectionPreview), mouse)
      ensures arcRequests == old(arcRequests) + PreviewRequests(nodes, connection)
    {
      ReleaseNodes();
      action := MoveAfterRelease(old(nodes), old(Hovers()), hit, buttons, mouse, offset);
    }
  }
}
