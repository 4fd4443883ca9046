/**
 * The per-node visual state the editor keeps, the pointer targets the
 * hit-tester reports and the commands the handlers hand back to the
 * controller. Shapes are reduced to the attributes the pointer layer
 * reads or writes.
 */
module Geometry {
  import opened Wrappers

  type NodeId = string

  /** The id a pending input is wired to while its preview follows the pointer. */
  const PointerId: NodeId := "mouse"

  /** A world-space point or offset. */
  datatype Vec2 = Vec2(x: int, y: int)

  function Add(a: Vec2, b: Vec2): Vec2 { Vec2(a.x + b.x, a.y + b.y) }

  function Neg(a: Vec2): Vec2 { Vec2(-a.x, -a.y) }

  type Color = string

  /** The two widths (arc stroke, connection stroke, output radius) a shape switches between. */
  datatype Width = Normal | Hovered

  /** The background fills the pointer layer sets: the selected and the hover colour. */
  datatype BackgroundFill = SelectedFill | HoverFill

  /** An input arc: its stroke colour, the colour saved while it is dimmed, and its stroke width. */
  datatype InputPin = InputPin(stroke: Color, oldColor: Option<Color>, weight: Width)

  /** An output circle: its fill colour, the colour saved while it is dimmed, and its radius. */
  datatype OutputPin = OutputPin(fill: Color, oldColor: Option<Color>, r: Width)

  /** The line drawn for a wired input. */
  datatype ConnectionLine = ConnectionLine(weight: Width)

  /** The last wiring the graph reported for a node: the source of each input, if any. */
  datatype WiringState = WiringState(inputs: seq<Option<NodeId>>)

  datatype NodeGeom = NodeGeom(
    position: Vec2,
    inputs: seq<InputPin>,
    output: Option<OutputPin>,
    background: Option<BackgroundFill>,
    connections: seq<ConnectionLine>,
    valuePos: Vec2,
    namePos: Option<Vec2>,
    lastState: Option<WiringState>,
    inputOverwrites: map<nat, NodeId>)

  /** An input pin, or the connection line drawn into it, named by node and index. */
  datatype InputRef = InputRef(id: NodeId, index: nat)

  /** What the hit-tester found under the pointer. */
  datatype MouseTarget =
    | NoTarget
    | NodeTarget(id: NodeId)
    | InputTarget(id: NodeId, index: nat)
    | OutputTarget(id: NodeId)
    | ConnectionTarget(id: NodeId, index: nat)

  /** The pending half of a connection the user is drawing. */
  datatype PartialConnection =
    | NoPending
    | PendingOutput(id: NodeId, unconnectableInputs: set<InputRef>)
    | PendingInput(id: NodeId, index: nat, unconnectableOutputs: set<NodeId>)

  /** The commands a handler returns to the controller. */
  datatype ForeignAction =
    | Nothing
    | Goto(id: NodeId)
    | EditNode(id: NodeId)
    | SelectInput(id: NodeId, index: nat)
    | SelectOutput(id: NodeId)
    | CreateConnection(outputId: NodeId, inputId: NodeId, inputIndex: nat)
    | DeleteConnection(id: NodeId, index: nat)

  /** A request to the wiring collaborator to recompute a node's input arcs, with the overrides it saw. */
  datatype ArcRequest = ArcRequest(node: NodeId, overwrites: map<nat, NodeId>)

  /** The segment drawn while a connection is pending. */
  datatype Preview = Preview(from: Vec2, to: Vec2, stroke: Option<Color>)

  /** Which buttons the pointer event reports as held. */
  datatype Buttons = Buttons(left: bool, right: bool, others: bool) {
    predicate NonePressed() { !left && !right && !others }
  }

  /**
   * Restores an input's stroke from its saved colour, if one is saved: the
   * saved colour comes back and is forgotten, and the width is kept.
   */
  function ResetStroke(p: InputPin): (r: InputPin)
    ensures r.oldColor.None? && r.weight == p.weight
    ensures p.oldColor.None? ==> r == p
    ensures p.oldColor.Some? ==> r.stroke == p.oldColor.value
  {
    if p.oldColor.Some? then p.(stroke := p.oldColor.value, oldColor := None) else p
  }

  /**
   * Restores an output's fill from its saved colour, if one is saved: the
   * saved colour comes back and is forgotten, and the radius is kept.
   */
  function ResetFill(p: OutputPin): (r: OutputPin)
    ensures r.oldColor.None? && r.r == p.r
    ensures p.oldColor.None? ==> r == p
    ensures p.oldColor.Some? ==> r.fill == p.oldColor.value
  {
    if p.oldColor.Some? then p.(fill := p.oldColor.value, oldColor := None) else p
  }

  /** A reset leaves no saved colour, so a second reset changes nothing. */
  lemma ResetStrokeSettles(p: InputPin)
    ensures ResetStroke(ResetStroke(p)) == ResetStroke(p)
  {
  }

  /** The same for an output's fill. */
  lemma ResetFillSettles(p: OutputPin)
    ensures ResetFill(ResetFill(p)) == ResetFill(p)
  {
  }

  /**
   * Shifts a node's position and both of its labels by `offset`; every
   * other attribute, and whether the node has a name label, stays.
   */
  function MoveNode(g: NodeGeom, offset: Vec2): (r: NodeGeom)
    ensures r.(position := g.position, valuePos := g.valuePos, namePos := g.namePos) == g
    ensures r.namePos.Some? == g.namePos.Some?
  {
    var namePos := if g.namePos.Some? then Some(Add(g.namePos.value, offset)) else None;
    g.(position := Add(g.position, offset), namePos := namePos, valuePos := Add(g.valuePos, offset))
  }

  /**
   * A move shifts the position and the labels by the offset and touches
   * nothing else; moving back by the opposite offset restores the node, and
   * two moves add up.
   */
  lemma MoveNodeShifts(g: NodeGeom, a: Vec2, b: Vec2)
    ensures MoveNode(g, a).position == Add(g.position, a)
    ensures MoveNode(g, a).valuePos == Add(g.valuePos, a)
    ensures g.namePos.Some? ==> MoveNode(g, a).namePos.value == Add(g.namePos.value, a)
    ensures MoveNode(MoveNode(g, a), Neg(a)) == g
    ensures MoveNode(MoveNode(g, a), b) == MoveNode(g, Add(a, b))
  {
  }

  // Which pins and lines of `nodes` a reference may name.

  predicate IsInput(nodes: map<NodeId, NodeGeom>, r: InputRef) {
    r.id in nodes && r.index < |nodes[r.id].inputs|
  }

  predicate IsLine(nodes: map<NodeId, NodeGeom>, r: InputRef) {
    r.id in nodes && r.index < |nodes[r.id].connections|
  }

  predicate HasOutput(nodes: map<NodeId, NodeGeom>, id: NodeId) {
    id in nodes && nodes[id].output.Some?
  }

  /** The hit-tester names only pins, lines and nodes that exist. */
  predicate TargetValid(nodes: map<NodeId, NodeGeom>, t: MouseTarget) {
    match t
    case NoTarget => true
    case NodeTarget(id) => id in nodes
    case InputTarget(id, index) => IsInput(nodes, InputRef(id, index))
    case OutputTarget(id) => HasOutput(nodes, id)
    case ConnectionTarget(id, index) => IsLine(nodes, InputRef(id, index))
  }

  /** What a geometry's pins and lines look like to a reference: counts and wiring, not attributes. */
  datatype Shape = Shape(inputs: nat, hasOutput: bool, lines: nat, lastState: Option<WiringState>, overwrites: map<nat, NodeId>)

  function ShapeOf(g: NodeGeom): Shape {
    Shape(|g.inputs|, g.output.Some?, |g.connections|, g.lastState, g.inputOverwrites)
  }

  /** Two geometries with the same pins and lines (attributes may differ). */
  predicate SameShape(g: NodeGeom, h: NodeGeom) {
    ShapeOf(g) == ShapeOf(h)
  }

  /** The shape of every node. */
  function Layout(nodes: map<NodeId, NodeGeom>): map<NodeId, Shape> {
    map id | id in nodes :: ShapeOf(nodes[id])
  }

  /** Two node maps with the same nodes, pins and lines. */
  predicate SameLayout(a: map<NodeId, NodeGeom>, b: map<NodeId, NodeGeom>) {
    Layout(a) == Layout(b)
  }

  /** Rewriting one node without changing its shape keeps the layout. */
  lemma UpdateKeepsLayout(a: map<NodeId, NodeGeom>, id: NodeId, h: NodeGeom)
    requires id in a && SameShape(a[id], h)
    ensures SameLayout(a, a[id := h])
  {
  }

  /** Equal layouts have the same nodes, each with the same shape. */
  lemma LayoutAt(a: map<NodeId, NodeGeom>, b: map<NodeId, NodeGeom>, k: NodeId)
    requires SameLayout(a, b)
    ensures k in a <==> k in b
    ensures k in a ==> SameShape(a[k], b[k])
  {
    assert k in a <==> k in Layout(a);
    assert k in b <==> k in Layout(b);
    if k in a {
      assert Layout(a)[k] == ShapeOf(a[k]);
      assert Layout(b)[k] == ShapeOf(b[k]);
    }
  }

  lemma LayoutKeys(a: map<NodeId, NodeGeom>, b: map<NodeId, NodeGeom>)
    requires SameLayout(a, b)
    ensures a.Keys == b.Keys
  {
    forall k ensures k in a <==> k in b {
      LayoutAt(a, b, k);
    }
  }

  /** A target valid in one layout is valid in a layout with the same nodes, pins and lines. */
  lemma SameLayoutKeepsTarget(a: map<NodeId, NodeGeom>, b: map<NodeId, NodeGeom>, t: MouseTarget)
    requires SameLayout(a, b) && TargetValid(a, t)
    ensures TargetValid(b, t)
  {
    match t
    case NoTarget =>
    case NodeTarget(i) => LayoutAt(a, b, i);
    case InputTarget(i, k) => LayoutAt(a, b, i);
    case OutputTarget(i) => LayoutAt(a, b, i);
    case ConnectionTarget(i, k) => LayoutAt(a, b, i);
  }

  // Single attribute writes on the node map.

  function WithOutputRadius(nodes: map<NodeId, NodeGeom>, id: NodeId, w: Width): map<NodeId, NodeGeom>
    requires HasOutput(nodes, id)
  {
    nodes[id := nodes[id].(output := Some(nodes[id].output.value.(r := w)))]
  }

  function WithInputWeight(nodes: map<NodeId, NodeGeom>, p: InputRef, w: Width): map<NodeId, NodeGeom>
    requires IsInput(nodes, p)
  {
    var g := nodes[p.id];
    nodes[p.id := g.(inputs := g.inputs[p.index := g.inputs[p.index].(weight := w)])]
  }

  function WithLineWeight(nodes: map<NodeId, NodeGeom>, p: InputRef, w: Width): map<NodeId, NodeGeom>
    requires IsLine(nodes, p)
  {
    var g := nodes[p.id];
    nodes[p.id := g.(connections := g.connections[p.index := g.connections[p.index].(weight := w)])]
  }

  function WithInputReset(nodes: map<NodeId, NodeGeom>, p: InputRef): map<NodeId, NodeGeom>
    requires IsInput(nodes, p)
  {
    var g := nodes[p.id];
    nodes[p.id := g.(inputs := g.inputs[p.index := ResetStroke(g.inputs[p.index])])]
  }

  function WithOutputReset(nodes: map<NodeId, NodeGeom>, id: NodeId): map<NodeId, NodeGeom>
    requires HasOutput(nodes, id)
  {
    nodes[id := nodes[id].(output := Some(ResetFill(nodes[id].output.value)))]
  }

  function WithBackground(nodes: map<NodeId, NodeGeom>, id: NodeId, fill: Option<BackgroundFill>): map<NodeId, NodeGeom>
    requires id in nodes
  {
    nodes[id := nodes[id].(background := fill)]
  }

  // Writes of different attributes commute, wherever they land.

  lemma OutputInputCommute(nodes: map<NodeId, NodeGeom>, o: NodeId, wo: Width, p: InputRef, wi: Width)
    requires HasOutput(nodes, o) && IsInput(nodes, p)
    ensures WithOutputRadius(WithInputWeight(nodes, p, wi), o, wo)
         == WithInputWeight(WithOutputRadius(nodes, o, wo), p, wi)
  {
  }

  lemma OutputLineCommute(nodes: map<NodeId, NodeGeom>, o: NodeId, wo: Width, p: InputRef, wl: Width)
    requires HasOutput(nodes, o) && IsLine(nodes, p)
    ensures WithOutputRadius(WithLineWeight(nodes, p, wl), o, wo)
         == WithLineWeight(WithOutputRadius(nodes, o, wo), p, wl)
  {
  }

  lemma InputLineCommute(nodes: map<NodeId, NodeGeom>, p: InputRef, wi: Width, q: InputRef, wl: Width)
    requires IsInput(nodes, p) && IsLine(nodes, q)
    ensures WithInputWeight(WithLineWeight(nodes, q, wl), p, wi)
         == WithLineWeight(WithInputWeight(nodes, p, wi), q, wl)
  {
  }

  lemma BackgroundOutputCommute(nodes: map<NodeId, NodeGeom>, id: NodeId, f: Option<BackgroundFill>, o: NodeId, wo: Width)
    requires id in nodes && HasOutput(nodes, o)
    ensures WithBackground(WithOutputRadius(nodes, o, wo), id, f)
         == WithOutputRadius(WithBackground(nodes, id, f), o, wo)
  {
  }

  lemma BackgroundInputCommute(nodes: map<NodeId, NodeGeom>, id: NodeId, f: Option<BackgroundFill>, p: InputRef, wi: Width)
    requires id in nodes && IsInput(nodes, p)
    ensures WithBackground(WithInputWeight(nodes, p, wi), id, f)
         == WithInputWeight(WithBackground(nodes, id, f), p, wi)
  {
  }

  lemma BackgroundLineCommute(nodes: map<NodeId, NodeGeom>, id: NodeId, f: Option<BackgroundFill>, q: InputRef, wl: Width)
    requires id in nodes && IsLine(nodes, q)
    ensures WithBackground(WithLineWeight(nodes, q, wl), id, f)
         == WithLineWeight(WithBackground(nodes, id, f), q, wl)
  {
  }
}
