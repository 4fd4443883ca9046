/**
 * Hover highlighting on a pointer move. The cache remembers at most one
 * highlighted output, input pin, connection line and node; each kind has
 * its own reference and its own geometry attribute (output radius, input
 * stroke weight, line weight, background fill), so the four kinds never
 * touch each other's state. For each kind a move first hovers (only while
 * no button is held) and then clears a highlight the pointer has left.
 */
module Hover {
  import opened Wrappers
  import opened Geometry

  /** One highlight reference together with the node geometry it styles. */
  datatype Highlight<T> = Highlight(ref: Option<T>, nodes: map<NodeId, NodeGeom>)

  /** The pin or line an input or connection target names. */
  function PinOf(t: MouseTarget): InputRef
    requires t.InputTarget? || t.ConnectionTarget?
  {
    InputRef(t.id, t.index)
  }

  /** Hovering the output of node `id` may highlight it unless a pending input cannot take it. */
  predicate OutputHoverAllowed(c: PartialConnection, id: NodeId) {
    !(c.PendingInput? && id in c.unconnectableOutputs)
  }

  // Outputs.

  /**
   * Pointer on an output other than the highlighted one: the old one goes
   * back to the normal radius, and the new one is highlighted if allowed.
   */
  function HoverOutputOn(nodes: map<NodeId, NodeGeom>, c: PartialConnection, sel: Option<NodeId>, t: MouseTarget): (r: Highlight<NodeId>)
    requires sel.Some? ==> HasOutput(nodes, sel.value)
    requires t.OutputTarget? ==> HasOutput(nodes, t.id)
    ensures SameLayout(nodes, r.nodes)
    ensures r.ref.Some? ==> HasOutput(r.nodes, r.ref.value)
  {
    if t.OutputTarget? && sel != Some(t.id) then
      var n1 := if sel.Some? then WithOutputRadius(nodes, sel.value, Normal) else nodes;
      if OutputHoverAllowed(c, t.id)
      then Highlight(Some(t.id), WithOutputRadius(n1, t.id, Hovered))
      else Highlight(sel, n1)
    else Highlight(sel, nodes)
  }

  /** Pointer off every output: the highlighted one goes back to normal. */
  function ClearOutputOn(nodes: map<NodeId, NodeGeom>, sel: Option<NodeId>, t: MouseTarget): (r: Highlight<NodeId>)
    requires sel.Some? ==> HasOutput(nodes, sel.value)
    ensures SameLayout(nodes, r.nodes)
    ensures r.ref.Some? ==> HasOutput(r.nodes, r.ref.value)
  {
    if !t.OutputTarget? && sel.Some?
    then Highlight(None, WithOutputRadius(nodes, sel.value, Normal))
    else Highlight(sel, nodes)
  }

  /** The output part of a pointer move. */
  function TrackOutputOn(nodes: map<NodeId, NodeGeom>, c: PartialConnection, sel: Option<NodeId>, t: MouseTarget, idle: bool): (r: Highlight<NodeId>)
    requires sel.Some? ==> HasOutput(nodes, sel.value)
    requires t.OutputTarget? ==> HasOutput(nodes, t.id)
    ensures SameLayout(nodes, r.nodes)
    ensures r.ref.Some? ==> HasOutput(r.nodes, r.ref.value)
  {
    var h := if idle then HoverOutputOn(nodes, c, sel, t) else Highlight(sel, nodes);
    ClearOutputOn(h.nodes, h.ref, t)
  }

  /**
   * After a move the highlighted output is on the target or was already
   * highlighted; an idle move onto another output moves the highlight there
   * only if the output is allowed.
   */
  lemma TrackOutputRef(nodes: map<NodeId, NodeGeom>, c: PartialConnection, sel: Option<NodeId>, t: MouseTarget, idle: bool)
    requires sel.Some? ==> HasOutput(nodes, sel.value)
    requires t.OutputTarget? ==> HasOutput(nodes, t.id)
    ensures var r := TrackOutputOn(nodes, c, sel, t, idle);
      && (!t.OutputTarget? ==> r.ref == None)
      && (t.OutputTarget? && sel == Some(t.id) ==> r == Highlight(sel, nodes))
      && (t.OutputTarget? && sel != Some(t.id) ==>
            r.ref == (if idle && OutputHoverAllowed(c, t.id) then Some(t.id) else sel))
  {
  }

  /**
   * A newly highlighted output shows the hover radius; an idle move onto
   * another output always puts the old one back to normal, even when the
   * new one is refused; no output other than those two changes
   * (`OutputFrame` states that only radii change).
   */
  lemma TrackOutputRadii(nodes: map<NodeId, NodeGeom>, c: PartialConnection, sel: Option<NodeId>, t: MouseTarget, idle: bool)
    requires sel.Some? ==> HasOutput(nodes, sel.value)
    requires t.OutputTarget? ==> HasOutput(nodes, t.id)
    ensures var r := TrackOutputOn(nodes, c, sel, t, idle);
      && (r.ref.Some? && r.ref != sel ==> r.nodes[r.ref.value].output.value.r == Hovered)
      && (sel.Some? && (r.ref != sel || (idle && t.OutputTarget? && sel != Some(t.id))) ==>
            r.nodes[sel.value].output.value.r == Normal)
      && (forall id :: id in nodes && Some(id) != sel && Some(id) != r.ref ==> r.nodes[id] == nodes[id])
  {
  }

  /** The output step keeps every node and its background fill. */
  lemma OutputKeepsFills(nodes: map<NodeId, NodeGeom>, c: PartialConnection, sel: Option<NodeId>, t: MouseTarget, idle: bool)
    requires sel.Some? ==> HasOutput(nodes, sel.value)
    requires t.OutputTarget? ==> HasOutput(nodes, t.id)
    ensures var r := TrackOutputOn(nodes, c, sel, t, idle);
      forall id :: id in nodes ==> id in r.nodes && r.nodes[id].background == nodes[id].background
  {
  }

  /**
   * The output step writes only output radii: every other attribute of
   * every node, and every output's fill and saved colour, stay.
   */
  lemma OutputFrame(nodes: map<NodeId, NodeGeom>, c: PartialConnection, sel: Option<NodeId>, t: MouseTarget, idle: bool)
    requires sel.Some? ==> HasOutput(nodes, sel.value)
    requires t.OutputTarget? ==> HasOutput(nodes, t.id)
    ensures var m := TrackOutputOn(nodes, c, sel, t, idle);
      forall id :: id in nodes ==>
        && id in m.nodes
        && m.nodes[id].(output := nodes[id].output) == nodes[id]
        && m.nodes[id].output.Some? == nodes[id].output.Some?
        && (nodes[id].output.Some? ==>
              m.nodes[id].output.value.(r := nodes[id].output.value.r) == nodes[id].output.value)
  {
  }

  // Input pins.

  /** Pointer on an input pin other than the highlighted one: move the highlight there. */
  function HoverInputOn(nodes: map<NodeId, NodeGeom>, sel: Option<InputRef>, t: MouseTarget): (r: Highlight<InputRef>)
    requires sel.Some? ==> IsInput(nodes, sel.value)
    requires t.InputTarget? ==> IsInput(nodes, PinOf(t))
    ensures SameLayout(nodes, r.nodes)
    ensures r.ref.Some? ==> IsInput(r.nodes, r.ref.value)
  {
    if t.InputTarget? && sel != Some(PinOf(t)) then
      var n1 := if sel.Some? then WithInputWeight(nodes, sel.value, Normal) else nodes;
      Highlight(Some(PinOf(t)), WithInputWeight(n1, PinOf(t), Hovered))
    else Highlight(sel, nodes)
  }

  /** Pointer off every input pin: the highlighted one goes back to normal. */
  function ClearInputOn(nodes: map<NodeId, NodeGeom>, sel: Option<InputRef>, t: MouseTarget): (r: Highlight<InputRef>)
    requires sel.Some? ==> IsInput(nodes, sel.value)
    ensures SameLayout(nodes, r.nodes)
    ensures r.ref.Some? ==> IsInput(r.nodes, r.ref.value)
  {
    if !t.InputTarget? && sel.Some?
    then Highlight(None, WithInputWeight(nodes, sel.value, Normal))
    else Highlight(sel, nodes)
  }

  /** The input part of a pointer move. */
  function TrackInputOn(nodes: map<NodeId, NodeGeom>, sel: Option<InputRef>, t: MouseTarget, idle: bool): (r: Highlight<InputRef>)
    requires sel.Some? ==> IsInput(nodes, sel.value)
    requires t.InputTarget? ==> IsInput(nodes, PinOf(t))
    ensures SameLayout(nodes, r.nodes)
    ensures r.ref.Some? ==> IsInput(r.nodes, r.ref.value)
  {
    var h := if idle then HoverInputOn(nodes, sel, t) else Highlight(sel, nodes);
    ClearInputOn(h.nodes, h.ref, t)
  }

  /**
   * After a move the highlighted input is on the target; an idle move onto
   * another pin moves the highlight there, a move with a button held keeps
   * the old one.
   */
  lemma TrackInputRef(nodes: map<NodeId, NodeGeom>, sel: Option<InputRef>, t: MouseTarget, idle: bool)
    requires sel.Some? ==> IsInput(nodes, sel.value)
    requires t.InputTarget? ==> IsInput(nodes, PinOf(t))
    ensures var r := TrackInputOn(nodes, sel, t, idle);
      && (!t.InputTarget? ==> r.ref == None)
      && (t.InputTarget? && sel == Some(PinOf(t)) ==> r == Highlight(sel, nodes))
      && (t.InputTarget? && sel != Some(PinOf(t)) ==> r.ref == (if idle then Some(PinOf(t)) else sel))
  {
  }

  /**
   * A newly highlighted input shows the hover weight and a dropped one the
   * normal weight; no pin other than those two changes (`InputFrame`
   * states that only weights change).
   */
  lemma TrackInputWeights(nodes: map<NodeId, NodeGeom>, sel: Option<InputRef>, t: MouseTarget, idle: bool)
    requires sel.Some? ==> IsInput(nodes, sel.value)
    requires t.InputTarget? ==> IsInput(nodes, PinOf(t))
    ensures var r := TrackInputOn(nodes, sel, t, idle);
      && (r.ref.Some? && r.ref != sel ==> r.nodes[r.ref.value.id].inputs[r.ref.value.index].weight == Hovered)
      && (sel.Some? && r.ref != sel ==> r.nodes[sel.value.id].inputs[sel.value.index].weight == Normal)
      && (forall p :: IsInput(nodes, p) && Some(p) != sel && Some(p) != r.ref ==>
            r.nodes[p.id].inputs[p.index] == nodes[p.id].inputs[p.index])
  {
  }

  /** The input step keeps every node and its background fill. */
  lemma InputKeepsFills(nodes: map<NodeId, NodeGeom>, sel: Option<InputRef>, t: MouseTarget, idle: bool)
    requires sel.Some? ==> IsInput(nodes, sel.value)
    requires t.InputTarget? ==> IsInput(nodes, PinOf(t))
    ensures var r := TrackInputOn(nodes, sel, t, idle);
      forall id :: id in nodes ==> id in r.nodes && r.nodes[id].background == nodes[id].background
  {
  }

  /**
   * The input step writes only input stroke weights: every other attribute
   * of every node, and every input's stroke and saved colour, stay.
   */
  lemma InputFrame(nodes: map<NodeId, NodeGeom>, sel: Option<InputRef>, t: MouseTarget, idle: bool)
    requires sel.Some? ==> IsInput(nodes, sel.value)
    requires t.InputTarget? ==> IsInput(nodes, PinOf(t))
    ensures var m := TrackInputOn(nodes, sel, t, idle);
      forall id :: id in nodes ==>
        && id in m.nodes
        && m.nodes[id].(inputs := nodes[id].inputs) == nodes[id]
        && |m.nodes[id].inputs| == |nodes[id].inputs|
    ensures var m := TrackInputOn(nodes, sel, t, idle);
      forall p :: IsInput(nodes, p) ==>
        m.nodes[p.id].inputs[p.index].(weight := nodes[p.id].inputs[p.index].weight) == nodes[p.id].inputs[p.index]
  {
  }

  // Connection lines.

  /** Pointer on a line other than the highlighted one: move the highlight there. */
  function HoverLineOn(nodes: map<NodeId, NodeGeom>, sel: Option<InputRef>, t: MouseTarget): (r: Highlight<InputRef>)
    requires sel.Some? ==> IsLine(nodes, sel.value)
    requires t.ConnectionTarget? ==> IsLine(nodes, PinOf(t))
    ensures SameLayout(nodes, r.nodes)
    ensures r.ref.Some? ==> IsLine(r.nodes, r.ref.value)
  {
    if t.ConnectionTarget? && sel != Some(PinOf(t)) then
      var n1 := if sel.Some? then WithLineWeight(nodes, sel.value, Normal) else nodes;
      Highlight(Some(PinOf(t)), WithLineWeight(n1, PinOf(t), Hovered))
    else Highlight(sel, nodes)
  }

  /** Pointer off every line: the highlighted one goes back to normal. */
  function ClearLineOn(nodes: map<NodeId, NodeGeom>, sel: Option<InputRef>, t: MouseTarget): (r: Highlight<InputRef>)
    requires sel.Some? ==> IsLine(nodes, sel.value)
    ensures SameLayout(nodes, r.nodes)
    ensures r.ref.Some? ==> IsLine(r.nodes, r.ref.value)
  {
    if !t.ConnectionTarget? && sel.Some?
    then Highlight(None, WithLineWeight(nodes, sel.value, Normal))
    else Highlight(sel, nodes)
  }

  /** The connection-line part of a pointer move. */
  function TrackLineOn(nodes: map<NodeId, NodeGeom>, sel: Option<InputRef>, t: MouseTarget, idle: bool): (r: Highlight<InputRef>)
    requires sel.Some? ==> IsLine(nodes, sel.value)
    requires t.ConnectionTarget? ==> IsLine(nodes, PinOf(t))
    ensures SameLayout(nodes, r.nodes)
    ensures r.ref.Some? ==> IsLine(r.nodes, r.ref.value)
  {
    var h := if idle then HoverLineOn(nodes, sel, t) else Highlight(sel, nodes);
    ClearLineOn(h.nodes, h.ref, t)
  }

  /** The line counterpart of `TrackInputRef`. */
  lemma TrackLineRef(nodes: map<NodeId, NodeGeom>, sel: Option<InputRef>, t: MouseTarget, idle: bool)
    requires sel.Some? ==> IsLine(nodes, sel.value)
    requires t.ConnectionTarget? ==> IsLine(nodes, PinOf(t))
    ensures var r := TrackLineOn(nodes, sel, t, idle);
      && (!t.ConnectionTarget? ==> r.ref == None)
      && (t.ConnectionTarget? && sel == Some(PinOf(t)) ==> r == Highlight(sel, nodes))
      && (t.ConnectionTarget? && sel != Some(PinOf(t)) ==> r.ref == (if idle then Some(PinOf(t)) else sel))
  {
  }

  /** The line counterpart of `TrackInputWeights`. */
  lemma TrackLineWeights(nodes: map<NodeId, NodeGeom>, sel: Option<InputRef>, t: MouseTarget, idle: bool)
    requires sel.Some? ==> IsLine(nodes, sel.value)
    requires t.ConnectionTarget? ==> IsLine(nodes, PinOf(t))
    ensures var r := TrackLineOn(nodes, sel, t, idle);
      && (r.ref.Some? && r.ref != sel ==> r.nodes[r.ref.value.id].connections[r.ref.value.index].weight == Hovered)
      && (sel.Some? && r.ref != sel ==> r.nodes[sel.value.id].connections[sel.value.index].weight == Normal)
      && (forall p :: IsLine(nodes, p) && Some(p) != sel && Some(p) != r.ref ==>
            r.nodes[p.id].connections[p.index] == nodes[p.id].connections[p.index])
  {
  }

  /** The line step keeps every node and its background fill. */
  lemma LineKeepsFills(nodes: map<NodeId, NodeGeom>, sel: Option<InputRef>, t: MouseTarget, idle: bool)
    requires sel.Some? ==> IsLine(nodes, sel.value)
    requires t.ConnectionTarget? ==> IsLine(nodes, PinOf(t))
    ensures var r := TrackLineOn(nodes, sel, t, idle);
      forall id :: id in nodes ==> id in r.nodes && r.nodes[id].background == nodes[id].background
  {
  }

  /**
   * The line step writes only line weights (a line has no other
   * attribute): every other attribute of every node stays.
   */
  lemma LineFrame(nodes: map<NodeId, NodeGeom>, sel: Option<InputRef>, t: MouseTarget, idle: bool)
    requires sel.Some? ==> IsLine(nodes, sel.value)
    requires t.ConnectionTarget? ==> IsLine(nodes, PinOf(t))
    ensures var m := TrackLineOn(nodes, sel, t, idle);
      forall id :: id in nodes ==>
        && id in m.nodes
        && m.nodes[id].(connections := nodes[id].connections) == nodes[id]
        && |m.nodes[id].connections| == |nodes[id].connections|
  {
  }

  // Node backgrounds.

  /**
   * Pointer on a node other than the highlighted one: the old one loses its
   * fill, and the new one takes the hover fill only if it shows no fill.
   */
  function HoverNodeOn(nodes: map<NodeId, NodeGeom>, sel: Option<NodeId>, t: MouseTarget): (r: Highlight<NodeId>)
    requires sel.Some? ==> sel.value in nodes
    requires t.NodeTarget? ==> t.id in nodes
    ensures SameLayout(nodes, r.nodes)
    ensures r.ref.Some? ==> r.ref.value in r.nodes
  {
    if t.NodeTarget? && sel != Some(t.id) then
      var n1 := if sel.Some? then WithBackground(nodes, sel.value, None) else nodes;
      if n1[t.id].background.None?
      then Highlight(Some(t.id), WithBackground(n1, t.id, Some(HoverFill)))
      else Highlight(sel, n1)
    else Highlight(sel, nodes)
  }

  /** Pointer off every node: the highlighted one loses its fill if it still shows the hover fill. */
  function ClearNodeOn(nodes: map<NodeId, NodeGeom>, sel: Option<NodeId>, t: MouseTarget): (r: Highlight<NodeId>)
    requires sel.Some? ==> sel.value in nodes
    ensures SameLayout(nodes, r.nodes)
    ensures r.ref.Some? ==> r.ref.value in r.nodes
  {
    if !t.NodeTarget? && sel.Some? && nodes[sel.value].background == Some(HoverFill)
    then Highlight(None, WithBackground(nodes, sel.value, None))
    else Highlight(sel, nodes)
  }

  /** The node part of a pointer move. */
  function TrackNodeOn(nodes: map<NodeId, NodeGeom>, sel: Option<NodeId>, t: MouseTarget, idle: bool): (r: Highlight<NodeId>)
    requires sel.Some? ==> sel.value in nodes
    requires t.NodeTarget? ==> t.id in nodes
    ensures SameLayout(nodes, r.nodes)
    ensures r.ref.Some? ==> r.ref.value in r.nodes
  {
    var h := if idle then HoverNodeOn(nodes, sel, t) else Highlight(sel, nodes);
    ClearNodeOn(h.nodes, h.ref, t)
  }

  /**
   * After a move the node highlight moves only onto a plain node under an
   * idle pointer; off the pointer it survives only on a node no longer
   * showing the hover fill.
   */
  lemma TrackNodeRef(nodes: map<NodeId, NodeGeom>, sel: Option<NodeId>, t: MouseTarget, idle: bool)
    requires sel.Some? ==> sel.value in nodes
    requires t.NodeTarget? ==> t.id in nodes
    ensures var r := TrackNodeOn(nodes, sel, t, idle);
      && (!t.NodeTarget? ==>
            r.ref == (if sel.Some? && nodes[sel.value].background == Some(HoverFill) then None else sel))
      && (t.NodeTarget? && sel == Some(t.id) ==> r == Highlight(sel, nodes))
      && (t.NodeTarget? && sel != Some(t.id) ==>
            r.ref == (if idle && nodes[t.id].background.None? then Some(t.id) else sel))
  {
  }

  /**
   * A fill changes only by the old highlight losing it or by a plain node
   * under an idle pointer taking the hover fill, so a node showing another
   * fill (a selected one) keeps it unless it was the old highlight; a node
   * that loses the highlight loses its fill.
   */
  lemma TrackNodeFills(nodes: map<NodeId, NodeGeom>, sel: Option<NodeId>, t: MouseTarget, idle: bool)
    requires sel.Some? ==> sel.value in nodes
    requires t.NodeTarget? ==> t.id in nodes
    ensures var r := TrackNodeOn(nodes, sel, t, idle);
      && (r.ref.Some? && r.ref != sel ==> r.nodes[r.ref.value].background == Some(HoverFill))
      && (sel.Some? && r.ref != sel ==> r.nodes[sel.value].background.None?)
      && (forall id :: id in nodes ==>
            || r.nodes[id].background == nodes[id].background
            || (Some(id) == sel && r.nodes[id].background.None?)
            || (t == NodeTarget(id) && idle && nodes[id].background.None? && r.nodes[id].background == Some(HoverFill)))
  {
  }

  /** The node step writes only background fills: every other attribute of every node stays. */
  lemma NodeFrame(nodes: map<NodeId, NodeGeom>, sel: Option<NodeId>, t: MouseTarget, idle: bool)
    requires sel.Some? ==> sel.value in nodes
    requires t.NodeTarget? ==> t.id in nodes
    ensures var m := TrackNodeOn(nodes, sel, t, idle);
      forall id :: id in nodes ==>
        && id in m.nodes
        && m.nodes[id].(background := nodes[id].background) == nodes[id]
  {
  }

  // All four kinds together.

  /** The four highlight references of the cache. */
  datatype HoverRefs = HoverRefs(output: Option<NodeId>, input: Option<InputRef>, line: Option<InputRef>, node: Option<NodeId>)

  /** The hover references together with the node geometry they style. */
  datatype Scene = Scene(refs: HoverRefs, nodes: map<NodeId, NodeGeom>)

  predicate HoverRefsValid(nodes: map<NodeId, NodeGeom>, h: HoverRefs) {
    && (h.output.Some? ==> HasOutput(nodes, h.output.value))
    && (h.input.Some? ==> IsInput(nodes, h.input.value))
    && (h.line.Some? ==> IsLine(nodes, h.line.value))
    && (h.node.Some? ==> h.node.value in nodes)
  }

  lemma SameLayoutKeepsHoverRefs(a: map<NodeId, NodeGeom>, b: map<NodeId, NodeGeom>, h: HoverRefs)
    requires SameLayout(a, b) && HoverRefsValid(a, h)
    ensures HoverRefsValid(b, h)
  {
    if h.output.Some? { LayoutAt(a, b, h.output.value); }
    if h.input.Some? { LayoutAt(a, b, h.input.value.id); }
    if h.line.Some? { LayoutAt(a, b, h.line.value.id); }
    if h.node.Some? { LayoutAt(a, b, h.node.value); }
  }

  /** The pin highlights (output, then input) of one mouse-move step. */
  function TrackPins(nodes: map<NodeId, NodeGeom>, c: PartialConnection, h: HoverRefs, t: MouseTarget, idle: bool): (r: Scene)
    requires HoverRefsValid(nodes, h) && TargetValid(nodes, t)
    ensures SameLayout(nodes, r.nodes) && HoverRefsValid(r.nodes, r.refs)
  {
    var o := TrackOutputOn(nodes, c, h.output, t, idle);
    SameLayoutKeepsTarget(nodes, o.nodes, t);
    SameLayoutKeepsHoverRefs(nodes, o.nodes, h);
    var i := TrackInputOn(o.nodes, h.input, t, idle);
    SameLayoutKeepsHoverRefs(o.nodes, i.nodes, h.(output := o.ref));
    Scene(h.(output := o.ref, input := i.ref), i.nodes)
  }

  /** The connection-line and node-background highlights of one mouse-move step. */
  function TrackRest(nodes: map<NodeId, NodeGeom>, h: HoverRefs, t: MouseTarget, idle: bool): (r: Scene)
    requires HoverRefsValid(nodes, h) && TargetValid(nodes, t)
    ensures SameLayout(nodes, r.nodes) && HoverRefsValid(r.nodes, r.refs)
  {
    var l := TrackLineOn(nodes, h.line, t, idle);
    SameLayoutKeepsTarget(nodes, l.nodes, t);
    SameLayoutKeepsHoverRefs(nodes, l.nodes, h);
    var n := TrackNodeOn(l.nodes, h.node, t, idle);
    SameLayoutKeepsHoverRefs(l.nodes, n.nodes, h.(line := l.ref));
    Scene(h.(line := l.ref, node := n.ref), n.nodes)
  }

  /**
   * All four highlight kinds of one mouse-move step, kind by kind; this ends
   * in the same state as the source's order of all hovers then all clears
   * (`HoverOrder.KindByKindIsSourceOrder`).
   */
  function TrackAll(nodes: map<NodeId, NodeGeom>, c: PartialConnection, h: HoverRefs, t: MouseTarget, idle: bool): (r: Scene)
    requires HoverRefsValid(nodes, h) && TargetValid(nodes, t)
    ensures SameLayout(nodes, r.nodes) && HoverRefsValid(r.nodes, r.refs)
  {
    var p := TrackPins(nodes, c, h, t, idle);
    SameLayoutKeepsTarget(nodes, p.nodes, t);
    TrackRest(p.nodes, p.refs, t, idle)
  }

  /** The pin step highlights only a pin of the kind under the pointer and always the input under an idle pointer. */
  lemma {:induction false} PinRefs(nodes: map<NodeId, NodeGeom>, c: PartialConnection, h: HoverRefs, t: MouseTarget, idle: bool)
    requires HoverRefsValid(nodes, h) && TargetValid(nodes, t)
    ensures var r := TrackPins(nodes, c, h, t, idle).refs;
      && (r.output.Some? ==> t.OutputTarget?)
      && (r.input.Some? ==> t.InputTarget?)
      && (idle && t.InputTarget? ==> r.input == Some(PinOf(t)))
      && r.line == h.line && r.node == h.node
  {
    var o := TrackOutputOn(nodes, c, h.output, t, idle);
    TrackOutputRef(nodes, c, h.output, t, idle);
    SameLayoutKeepsTarget(nodes, o.nodes, t);
    SameLayoutKeepsHoverRefs(nodes, o.nodes, h);
    TrackInputRef(o.nodes, h.input, t, idle);
  }

  /**
   * After a move at most one pin or line stays highlighted, and only one of
   * the kind under the pointer; an idle pointer on an input or a line
   * always highlights it.
   */
  lemma {:induction false} TrackAllRefs(nodes: map<NodeId, NodeGeom>, c: PartialConnection, h: HoverRefs, t: MouseTarget, idle: bool)
    requires HoverRefsValid(nodes, h) && TargetValid(nodes, t)
    ensures var r := TrackAll(nodes, c, h, t, idle).refs;
      && (r.output.Some? ==> t.OutputTarget?)
      && (r.input.Some? ==> t.InputTarget?)
      && (r.line.Some? ==> t.ConnectionTarget?)
      && (idle && t.InputTarget? ==> r.input == Some(PinOf(t)))
      && (idle && t.ConnectionTarget? ==> r.line == Some(PinOf(t)))
      && (r.output.None? || r.input.None?) && (r.output.None? || r.line.None?) && (r.input.None? || r.line.None?)
  {
    var p := TrackPins(nodes, c, h, t, idle);
    PinRefs(nodes, c, h, t, idle);
    SameLayoutKeepsTarget(nodes, p.nodes, t);
    TrackLineRef(p.nodes, p.refs.line, t, idle);
  }

  /** The pin step leaves every background fill alone. */
  lemma {:induction false} PinsKeepFills(nodes: map<NodeId, NodeGeom>, c: PartialConnection, h: HoverRefs, t: MouseTarget, idle: bool)
    requires HoverRefsValid(nodes, h) && TargetValid(nodes, t)
    ensures var r := TrackPins(nodes, c, h, t, idle);
      forall id :: id in nodes ==> id in r.nodes && r.nodes[id].background == nodes[id].background
  {
    var o := TrackOutputOn(nodes, c, h.output, t, idle);
    OutputKeepsFills(nodes, c, h.output, t, idle);
    SameLayoutKeepsTarget(nodes, o.nodes, t);
    SameLayoutKeepsHoverRefs(nodes, o.nodes, h);
    InputKeepsFills(o.nodes, h.input, t, idle);
    LayoutKeys(nodes, TrackPins(nodes, c, h, t, idle).nodes);
  }

  /** The line and node step changes fills only as `TrackNodeFills` allows. */
  lemma {:induction false} RestFills(nodes: map<NodeId, NodeGeom>, h: HoverRefs, t: MouseTarget, idle: bool)
    requires HoverRefsValid(nodes, h) && TargetValid(nodes, t)
    ensures var r := TrackRest(nodes, h, t, idle);
      && (h.node.Some? && r.refs.node != h.node ==> r.nodes[h.node.value].background.None?)
      && forall id :: id in nodes ==>
        && id in r.nodes
        && (|| r.nodes[id].background == nodes[id].background
            || (Some(id) == h.node && r.nodes[id].background.None?)
            || (t == NodeTarget(id) && idle && nodes[id].background.None? && r.nodes[id].background == Some(HoverFill)))
  {
    var l := TrackLineOn(nodes, h.line, t, idle);
    LineKeepsFills(nodes, h.line, t, idle);
    SameLayoutKeepsTarget(nodes, l.nodes, t);
    SameLayoutKeepsHoverRefs(nodes, l.nodes, h);
    TrackNodeFills(l.nodes, h.node, t, idle);
    LayoutKeys(nodes, l.nodes);
    LayoutKeys(l.nodes, TrackRest(nodes, h, t, idle).nodes);
  }

  /**
   * A whole move changes a fill only by dropping the old node highlight or
   * by giving a plain node under an idle pointer the hover fill; a node that
   * loses the highlight shows no fill.
   */
  lemma {:induction false} TrackAllFills(nodes: map<NodeId, NodeGeom>, c: PartialConnection, h: HoverRefs, t: MouseTarget, idle: bool)
    requires HoverRefsValid(nodes, h) && TargetValid(nodes, t)
    ensures var r := TrackAll(nodes, c, h, t, idle);
      && (h.node.Some? && r.refs.node != h.node ==> r.nodes[h.node.value].background.None?)
      && forall id :: id in nodes ==>
        && id in r.nodes
        && (|| r.nodes[id].background == nodes[id].background
            || (Some(id) == h.node && r.nodes[id].background.None?)
            || (t == NodeTarget(id) && idle && nodes[id].background.None? && r.nodes[id].background == Some(HoverFill)))
  {
    var p := TrackPins(nodes, c, h, t, idle);
    PinsKeepFills(nodes, c, h, t, idle);
    PinRefs(nodes, c, h, t, idle);
    SameLayoutKeepsTarget(nodes, p.nodes, t);
    RestFills(p.nodes, p.refs, t, idle);
  }
}
