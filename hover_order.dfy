/**
 * The order of the hover writes in a pointer move. The source runs the four
 * hover steps (only while no button is held) and then the four clear steps;
 * module Hover runs hover-and-clear kind by kind. Each kind writes its own
 * attribute and tests only its own attribute, so both orders end in the same
 * highlights and geometry.
 */
module HoverOrder {
  import opened Wrappers
  import opened Geometry
  import opened Hover

  /** The four hover steps of a move, in the source's order: output, input, line, node. */
  function HoverAll(nodes: map<NodeId, NodeGeom>, c: PartialConnection, h: HoverRefs, t: MouseTarget): (r: Scene)
    requires HoverRefsValid(nodes, h) && TargetValid(nodes, t)
    ensures SameLayout(nodes, r.nodes) && HoverRefsValid(r.nodes, r.refs)
  {
    var o := HoverOutputOn(nodes, c, h.output, t);
    SameLayoutKeepsTarget(nodes, o.nodes, t);
    SameLayoutKeepsHoverRefs(nodes, o.nodes, h);
    var i := HoverInputOn(o.nodes, h.input, t);
    SameLayoutKeepsTarget(o.nodes, i.nodes, t);
    SameLayoutKeepsHoverRefs(o.nodes, i.nodes, h.(output := o.ref));
    var l := HoverLineOn(i.nodes, h.line, t);
    SameLayoutKeepsTarget(i.nodes, l.nodes, t);
    SameLayoutKeepsHoverRefs(i.nodes, l.nodes, h.(output := o.ref, input := i.ref));
    var n := HoverNodeOn(l.nodes, h.node, t);
    SameLayoutKeepsHoverRefs(l.nodes, n.nodes, h.(output := o.ref, input := i.ref, line := l.ref));
    Scene(HoverRefs(o.ref, i.ref, l.ref, n.ref), n.nodes)
  }

  /** The four clear steps of a move, in the source's order. */
  function ClearAll(nodes: map<NodeId, NodeGeom>, h: HoverRefs, t: MouseTarget): (r: Scene)
    requires HoverRefsValid(nodes, h)
    ensures SameLayout(nodes, r.nodes) && HoverRefsValid(r.nodes, r.refs)
  {
    var o := ClearOutputOn(nodes, h.output, t);
    SameLayoutKeepsHoverRefs(nodes, o.nodes, h);
    var i := ClearInputOn(o.nodes, h.input, t);
    SameLayoutKeepsHoverRefs(o.nodes, i.nodes, h.(output := o.ref));
    var l := ClearLineOn(i.nodes, h.line, t);
    SameLayoutKeepsHoverRefs(i.nodes, l.nodes, h.(output := o.ref, input := i.ref));
    var n := ClearNodeOn(l.nodes, h.node, t);
    SameLayoutKeepsHoverRefs(l.nodes, n.nodes, h.(output := o.ref, input := i.ref, line := l.ref));
    Scene(HoverRefs(o.ref, i.ref, l.ref, n.ref), n.nodes)
  }

  /** The highlight part of a pointer move as the source writes it: every hover, then every clear. */
  function SourceMove(nodes: map<NodeId, NodeGeom>, c: PartialConnection, h: HoverRefs, t: MouseTarget, idle: bool): (r: Scene)
    requires HoverRefsValid(nodes, h) && TargetValid(nodes, t)
    ensures SameLayout(nodes, r.nodes) && HoverRefsValid(r.nodes, r.refs)
  {
    if idle then
      var s := HoverAll(nodes, c, h, t);
      ClearAll(s.nodes, s.refs, t)
    else ClearAll(nodes, h, t)
  }

  /** On an input pin only the input hover acts, and it commutes with the output clear. */
  lemma {:induction false} InputMoveEitherOrder(nodes: map<NodeId, NodeGeom>, c: PartialConnection, h: HoverRefs, t: MouseTarget)
    requires HoverRefsValid(nodes, h) && TargetValid(nodes, t) && t.InputTarget?
    ensures TrackAll(nodes, c, h, t, true) == SourceMove(nodes, c, h, t, true)
  {
    if h.output.Some? && h.input != Some(PinOf(t)) {
      var o := h.output.value;
      if h.input.Some? {
        var n1 := WithInputWeight(nodes, h.input.value, Normal);
        OutputInputCommute(nodes, o, Normal, h.input.value, Normal);
        OutputInputCommute(n1, o, Normal, PinOf(t), Hovered);
      } else {
        OutputInputCommute(nodes, o, Normal, PinOf(t), Hovered);
      }
    }
  }

  /** The line hover commutes with an output radius write. */
  lemma HoverLinePastOutput(x: map<NodeId, NodeGeom>, sl: Option<InputRef>, t: MouseTarget, o: NodeId, w: Width)
    requires (sl.Some? ==> IsLine(x, sl.value)) && t.ConnectionTarget? && IsLine(x, PinOf(t)) && HasOutput(x, o)
    ensures var r := HoverLineOn(x, sl, t);
      && HasOutput(r.nodes, o)
      && HoverLineOn(WithOutputRadius(x, o, w), sl, t) == Highlight(r.ref, WithOutputRadius(r.nodes, o, w))
  {
    if sl != Some(PinOf(t)) {
      var l1 := if sl.Some? then WithLineWeight(x, sl.value, Normal) else x;
      if sl.Some? { OutputLineCommute(x, o, w, sl.value, Normal); }
      OutputLineCommute(l1, o, w, PinOf(t), Hovered);
    }
  }

  /** The line hover commutes with an input weight write. */
  lemma HoverLinePastInput(x: map<NodeId, NodeGeom>, sl: Option<InputRef>, t: MouseTarget, p: InputRef, w: Width)
    requires (sl.Some? ==> IsLine(x, sl.value)) && t.ConnectionTarget? && IsLine(x, PinOf(t)) && IsInput(x, p)
    ensures var r := HoverLineOn(x, sl, t);
      && IsInput(r.nodes, p)
      && HoverLineOn(WithInputWeight(x, p, w), sl, t) == Highlight(r.ref, WithInputWeight(r.nodes, p, w))
  {
    if sl != Some(PinOf(t)) {
      var l1 := if sl.Some? then WithLineWeight(x, sl.value, Normal) else x;
      if sl.Some? { InputLineCommute(x, p, w, sl.value, Normal); }
      InputLineCommute(l1, p, w, PinOf(t), Hovered);
    }
  }

  /** On a connection line only the line hover acts, and it commutes with the output and input clears. */
  lemma {:induction false} LineMoveEitherOrder(nodes: map<NodeId, NodeGeom>, c: PartialConnection, h: HoverRefs, t: MouseTarget)
    requires HoverRefsValid(nodes, h) && TargetValid(nodes, t) && t.ConnectionTarget?
    ensures TrackAll(nodes, c, h, t, true) == SourceMove(nodes, c, h, t, true)
  {
    var co := if h.output.Some? then WithOutputRadius(nodes, h.output.value, Normal) else nodes;
    if h.output.Some? { HoverLinePastOutput(nodes, h.line, t, h.output.value, Normal); }
    if h.input.Some? { HoverLinePastInput(co, h.line, t, h.input.value, Normal); }
  }

  /** The node hover commutes with an output radius write. */
  lemma HoverNodePastOutput(x: map<NodeId, NodeGeom>, sn: Option<NodeId>, t: MouseTarget, o: NodeId, w: Width)
    requires (sn.Some? ==> sn.value in x) && t.NodeTarget? && t.id in x && HasOutput(x, o)
    ensures var r := HoverNodeOn(x, sn, t);
      && HasOutput(r.nodes, o)
      && HoverNodeOn(WithOutputRadius(x, o, w), sn, t) == Highlight(r.ref, WithOutputRadius(r.nodes, o, w))
  {
    var n1 := if sn.Some? then WithBackground(x, sn.value, None) else x;
    if sn.Some? { BackgroundOutputCommute(x, sn.value, None, o, w); }
    BackgroundOutputCommute(n1, t.id, Some(HoverFill), o, w);
  }

  /** The node hover commutes with an input weight write. */
  lemma HoverNodePastInput(x: map<NodeId, NodeGeom>, sn: Option<NodeId>, t: MouseTarget, p: InputRef, w: Width)
    requires (sn.Some? ==> sn.value in x) && t.NodeTarget? && t.id in x && IsInput(x, p)
    ensures var r := HoverNodeOn(x, sn, t);
      && IsInput(r.nodes, p)
      && HoverNodeOn(WithInputWeight(x, p, w), sn, t) == Highlight(r.ref, WithInputWeight(r.nodes, p, w))
  {
    var n1 := if sn.Some? then WithBackground(x, sn.value, None) else x;
    if sn.Some? { BackgroundInputCommute(x, sn.value, None, p, w); }
    BackgroundInputCommute(n1, t.id, Some(HoverFill), p, w);
  }

  /** The node hover commutes with a line weight write. */
  lemma HoverNodePastLine(x: map<NodeId, NodeGeom>, sn: Option<NodeId>, t: MouseTarget, q: InputRef, w: Width)
    requires (sn.Some? ==> sn.value in x) && t.NodeTarget? && t.id in x && IsLine(x, q)
    ensures var r := HoverNodeOn(x, sn, t);
      && IsLine(r.nodes, q)
      && HoverNodeOn(WithLineWeight(x, q, w), sn, t) == Highlight(r.ref, WithLineWeight(r.nodes, q, w))
  {
    var n1 := if sn.Some? then WithBackground(x, sn.value, None) else x;
    if sn.Some? { BackgroundLineCommute(x, sn.value, None, q, w); }
    BackgroundLineCommute(n1, t.id, Some(HoverFill), q, w);
  }

  /** The output, input and line clears of a move that does not leave a node. */
  function PinLineClears(nodes: map<NodeId, NodeGeom>, h: HoverRefs): map<NodeId, NodeGeom>
    requires HoverRefsValid(nodes, h)
  {
    var co := if h.output.Some? then WithOutputRadius(nodes, h.output.value, Normal) else nodes;
    var ci := if h.input.Some? then WithInputWeight(co, h.input.value, Normal) else co;
    if h.line.Some? then WithLineWeight(ci, h.line.value, Normal) else ci
  }

  /** Kind by kind, a move onto a node clears the other kinds and then hovers the node. */
  lemma {:induction false} TrackAllOnNode(nodes: map<NodeId, NodeGeom>, c: PartialConnection, h: HoverRefs, t: MouseTarget)
    requires HoverRefsValid(nodes, h) && TargetValid(nodes, t) && t.NodeTarget?
    ensures var n := HoverNodeOn(PinLineClears(nodes, h), h.node, t);
      TrackAll(nodes, c, h, t, true) == Scene(HoverRefs(None, None, None, n.ref), n.nodes)
  {
  }

  /** In the source's order, a move onto a node hovers the node and then clears the other kinds. */
  lemma {:induction false} SourceMoveOnNode(nodes: map<NodeId, NodeGeom>, c: PartialConnection, h: HoverRefs, t: MouseTarget)
    requires HoverRefsValid(nodes, h) && TargetValid(nodes, t) && t.NodeTarget?
    ensures var n := HoverNodeOn(nodes, h.node, t);
      && HoverRefsValid(n.nodes, h)
      && SourceMove(nodes, c, h, t, true) == Scene(HoverRefs(None, None, None, n.ref), PinLineClears(n.nodes, h))
  {
    SameLayoutKeepsHoverRefs(nodes, HoverNodeOn(nodes, h.node, t).nodes, h);
  }

  /** On a node only the node hover acts, and it commutes with the output, input and line clears. */
  lemma {:induction false} NodeMoveEitherOrder(nodes: map<NodeId, NodeGeom>, c: PartialConnection, h: HoverRefs, t: MouseTarget)
    requires HoverRefsValid(nodes, h) && TargetValid(nodes, t) && t.NodeTarget?
    ensures TrackAll(nodes, c, h, t, true) == SourceMove(nodes, c, h, t, true)
  {
    TrackAllOnNode(nodes, c, h, t);
    SourceMoveOnNode(nodes, c, h, t);
    var co := if h.output.Some? then WithOutputRadius(nodes, h.output.value, Normal) else nodes;
    var ci := if h.input.Some? then WithInputWeight(co, h.input.value, Normal) else co;
    if h.output.Some? { HoverNodePastOutput(nodes, h.node, t, h.output.value, Normal); }
    if h.input.Some? { HoverNodePastInput(co, h.node, t, h.input.value, Normal); }
    if h.line.Some? { HoverNodePastLine(ci, h.node, t, h.line.value, Normal); }
  }

  /** Off every hover target, or with a button held, both orders run the same clears. */
  lemma {:induction false} ClearsOnlyEitherOrder(nodes: map<NodeId, NodeGeom>, c: PartialConnection, h: HoverRefs, t: MouseTarget, idle: bool)
    requires HoverRefsValid(nodes, h) && TargetValid(nodes, t)
    requires !idle || t.NoTarget? || t.OutputTarget?
    ensures TrackAll(nodes, c, h, t, idle) == SourceMove(nodes, c, h, t, idle)
  {
  }

  /**
   * Running hover-and-clear kind by kind ends in the same highlights and
   * geometry as the source's order, all hovers then all clears.
   */
  lemma {:induction false} KindByKindIsSourceOrder(nodes: map<NodeId, NodeGeom>, c: PartialConnection, h: HoverRefs, t: MouseTarget, idle: bool)
    requires HoverRefsValid(nodes, h) && TargetValid(nodes, t)
    ensures TrackAll(nodes, c, h, t, idle) == SourceMove(nodes, c, h, t, idle)
  {
    if !idle || t.NoTarget? || t.OutputTarget? {
      ClearsOnlyEitherOrder(nodes, c, h, t, idle);
    } else if t.InputTarget? {
      InputMoveEitherOrder(nodes, c, h, t);
    } else if t.ConnectionTarget? {
      LineMoveEitherOrder(nodes, c, h, t);
    } else {
      NodeMoveEitherOrder(nodes, c, h, t);
    }
  }
}
