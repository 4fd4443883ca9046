/**
 * The partial-connection state machine as pure step functions, and the
 * colour-restore effect that ends a pending connection. The handlers in
 * module Render are proved against these definitions.
 */
module Connection {
  import opened Wrappers
  import opened Geometry

  /**
   * What one pin click does: the next pending connection, the command
   * returned, and whether the old pending connection's unconnectable pins
   * get their colours restored first. A press on the background is
   * `Render.EditorState.CancelConnection`.
   */
  datatype Step = Step(next: PartialConnection, action: ForeignAction, restores: bool)

  /**
   * A click on the output of node `output`. The command agrees with the
   * next state: a rejection changes nothing, a created connection names
   * this output and ends the pending one, and a selected output is the
   * fresh pending connection.
   */
  function ClickOutput(c: PartialConnection, output: NodeId): (r: Step)
    ensures r.action.Nothing? || r.action.CreateConnection? || r.action.SelectOutput?
    ensures r.action == Nothing ==> r == Step(c, Nothing, false)
    ensures r.next.NoPending? <==> r.action.CreateConnection?
    ensures r.action.CreateConnection? ==> r.action.outputId == output && r.restores
    ensures r.action.SelectOutput? ==> r.action.id == output && r.next == PendingOutput(output, {})
  {
    match c
    case PendingInput(id, index, u) =>
      if output in u then Step(c, Nothing, false)
      else Step(NoPending, CreateConnection(output, id, index), true)
    case _ => Step(PendingOutput(output, {}), SelectOutput(output), false)
  }

  /**
   * A click on an input pin. The command agrees with the next state: a
   * rejection changes nothing, a created connection names this pin and
   * ends the pending one, and a selected input is the fresh pending
   * connection.
   */
  function ClickInput(c: PartialConnection, input: InputRef): (r: Step)
    ensures r.action.Nothing? || r.action.CreateConnection? || r.action.SelectInput?
    ensures r.action == Nothing ==> r == Step(c, Nothing, false)
    ensures r.next.NoPending? <==> r.action.CreateConnection?
    ensures r.action.CreateConnection? ==>
      r.action.inputId == input.id && r.action.inputIndex == input.index && r.restores
    ensures r.action.SelectInput? ==>
      r.action == SelectInput(input.id, input.index) && r.next == PendingInput(input.id, input.index, {})
  {
    match c
    case PendingOutput(id, u) =>
      if input in u then Step(c, Nothing, false)
      else Step(NoPending, CreateConnection(id, input.id, input.index), true)
    case PendingInput(_, _, _) =>
      Step(PendingInput(input.id, input.index, {}), SelectInput(input.id, input.index), true)
    case NoPending =>
      Step(PendingInput(input.id, input.index, {}), SelectInput(input.id, input.index), false)
  }

  /**
   * A connection is rejected exactly when the clicked pin is unconnectable
   * for the pending one; a rejection returns `Nothing`, keeps the pending
   * connection and restores no colour.
   */
  lemma RejectedConnection(c: PartialConnection, input: InputRef, output: NodeId)
    ensures ClickInput(c, input).action == Nothing
        <==> c.PendingOutput? && input in c.unconnectableInputs
    ensures ClickInput(c, input).action == Nothing ==> ClickInput(c, input) == Step(c, Nothing, false)
    ensures ClickOutput(c, output).action == Nothing
        <==> c.PendingInput? && output in c.unconnectableOutputs
    ensures ClickOutput(c, output).action == Nothing ==> ClickOutput(c, output) == Step(c, Nothing, false)
  {
  }

  /**
   * A connection is created exactly when a pin of the other direction is
   * clicked and it is not unconnectable; the output always comes first, the
   * pending connection ends and its unconnectable pins are restored.
   */
  lemma AcceptedConnection(c: PartialConnection, input: InputRef, output: NodeId)
    ensures ClickInput(c, input).action.CreateConnection?
        <==> c.PendingOutput? && input !in c.unconnectableInputs
    ensures ClickInput(c, input).action.CreateConnection? ==>
      ClickInput(c, input) == Step(NoPending, CreateConnection(c.id, input.id, input.index), true)
    ensures ClickOutput(c, output).action.CreateConnection?
        <==> c.PendingInput? && output !in c.unconnectableOutputs
    ensures ClickOutput(c, output).action.CreateConnection? ==>
      ClickOutput(c, output) == Step(NoPending, CreateConnection(output, c.id, c.index), true)
  {
  }

  /**
   * Otherwise the click starts a fresh pending connection with an empty
   * unconnectable set. An input replacing a pending input restores the old
   * colours; an output replacing a pending output does not.
   */
  lemma FreshPending(c: PartialConnection, input: InputRef, output: NodeId)
    ensures ClickInput(c, input).action.SelectInput? <==> !c.PendingOutput?
    ensures ClickInput(c, input).action.SelectInput? ==>
      ClickInput(c, input) == Step(PendingInput(input.id, input.index, {}),
                                   SelectInput(input.id, input.index), c.PendingInput?)
    ensures ClickOutput(c, output).action.SelectOutput? <==> !c.PendingInput?
    ensures ClickOutput(c, output).action.SelectOutput? ==>
      ClickOutput(c, output) == Step(PendingOutput(output, {}), SelectOutput(output), false)
  {
  }

  /**
   * Every pin click that ends or replaces a pending connection restores its
   * unconnectable colours, except a pending output replaced by another output.
   */
  lemma EndedPendingIsRestored(c: PartialConnection, input: InputRef, output: NodeId)
    ensures !c.NoPending? && ClickInput(c, input).next != c ==> ClickInput(c, input).restores
    ensures c.PendingInput? && ClickOutput(c, output).next != c ==> ClickOutput(c, output).restores
    ensures c.PendingOutput? ==> !ClickOutput(c, output).restores
  {
  }

  /** The input pins of node `id` with those named in `u` restored. */
  function RestoreStrokes(id: NodeId, pins: seq<InputPin>, u: set<InputRef>): (r: seq<InputPin>)
    ensures |r| == |pins|
  {
    seq(|pins|, i requires 0 <= i < |pins| =>
      if InputRef(id, i) in u then ResetStroke(pins[i]) else pins[i])
  }

  /** Every node with its input pins named in `u` restored. */
  function RestoreInputStrokes(nodes: map<NodeId, NodeGeom>, u: set<InputRef>): map<NodeId, NodeGeom> {
    map id | id in nodes :: nodes[id].(inputs := RestoreStrokes(id, nodes[id].inputs, u))
  }

  /** Every node with its output restored when its id is in `u`. */
  function RestoreOutputFills(nodes: map<NodeId, NodeGeom>, u: set<NodeId>): map<NodeId, NodeGeom> {
    map id | id in nodes ::
      if id in u && nodes[id].output.Some?
      then nodes[id].(output := Some(ResetFill(nodes[id].output.value)))
      else nodes[id]
  }

  /**
   * The nodes after the pending connection `c` has its unconnectable pins
   * restored; no node, pin or line appears or disappears.
   */
  function RestoreUnconnectable(nodes: map<NodeId, NodeGeom>, c: PartialConnection): (r: map<NodeId, NodeGeom>)
    ensures SameLayout(nodes, r)
  {
    match c
    case NoPending => nodes
    case PendingOutput(_, u) => RestoreInputStrokes(nodes, u)
    case PendingInput(_, _, u) => RestoreOutputFills(nodes, u)
  }

  /** Restoring nothing changes nothing. */
  lemma RestoreNothing(nodes: map<NodeId, NodeGeom>)
    ensures RestoreInputStrokes(nodes, {}) == nodes
    ensures RestoreOutputFills(nodes, {}) == nodes
  {
    var m := RestoreInputStrokes(nodes, {});
    forall id | id in nodes ensures m[id] == nodes[id] {
      assert RestoreStrokes(id, nodes[id].inputs, {}) == nodes[id].inputs;
    }
  }

  /** Restoring one more input pin is one more in-place reset of that pin. */
  lemma RestoreInputStrokesStep(nodes: map<NodeId, NodeGeom>, done: set<InputRef>, r: InputRef)
    requires IsInput(nodes, r) && r !in done
    ensures var m := RestoreInputStrokes(nodes, done);
      && IsInput(m, r)
      && m[r.id].inputs[r.index] == nodes[r.id].inputs[r.index]
      && RestoreInputStrokes(nodes, done + {r}) == WithInputReset(m, r)
  {
    var m := RestoreInputStrokes(nodes, done);
    var m' := RestoreInputStrokes(nodes, done + {r});
    var g := m[r.id];
    var want := m[r.id := g.(inputs := g.inputs[r.index := ResetStroke(g.inputs[r.index])])];
    forall id | id in nodes ensures m'[id] == want[id] {
      if id == r.id {
        assert RestoreStrokes(id, nodes[id].inputs, done + {r})
            == g.inputs[r.index := ResetStroke(g.inputs[r.index])];
      } else {
        assert RestoreStrokes(id, nodes[id].inputs, done + {r})
            == RestoreStrokes(id, nodes[id].inputs, done);
      }
    }
  }

  /** Restoring one more output is one more in-place reset of that output. */
  lemma RestoreOutputFillsStep(nodes: map<NodeId, NodeGeom>, done: set<NodeId>, o: NodeId)
    requires HasOutput(nodes, o) && o !in done
    ensures var m := RestoreOutputFills(nodes, done);
      && HasOutput(m, o)
      && m[o].output == nodes[o].output
      && RestoreOutputFills(nodes, done + {o}) == WithOutputReset(m, o)
  {
  }

  /**
   * What ending a pending connection does to the nodes: every attribute
   * other than pin colours stays; every pin in the
   * unconnectable set has its saved colour put back and forgotten; every
   * other pin is untouched.
   */
  lemma RestoreUnconnectableEffect(nodes: map<NodeId, NodeGeom>, c: PartialConnection)
    ensures var m := RestoreUnconnectable(nodes, c);
      forall id :: id in nodes ==>
        && id in m
        && m[id].(inputs := nodes[id].inputs, output := nodes[id].output) == nodes[id]
    ensures c.PendingOutput? ==> forall r :: IsInput(nodes, r) ==>
      RestoreUnconnectable(nodes, c)[r.id].inputs[r.index]
        == if r in c.unconnectableInputs then ResetStroke(nodes[r.id].inputs[r.index])
           else nodes[r.id].inputs[r.index]
    ensures c.PendingOutput? ==> forall id :: id in nodes ==>
      RestoreUnconnectable(nodes, c)[id].output == nodes[id].output
    ensures c.PendingInput? ==> forall id :: HasOutput(nodes, id) ==>
      RestoreUnconnectable(nodes, c)[id].output.value
        == if id in c.unconnectableOutputs then ResetFill(nodes[id].output.value)
           else nodes[id].output.value
    ensures c.PendingInput? ==> forall id :: id in nodes ==>
      RestoreUnconnectable(nodes, c)[id].inputs == nodes[id].inputs
  {
  }

  /** Once restored, the unconnectable pins carry no saved colour, so restoring again changes nothing. */
  lemma RestoreUnconnectableIdempotent(nodes: map<NodeId, NodeGeom>, c: PartialConnection)
    ensures c.PendingOutput? ==> forall r :: r in c.unconnectableInputs && IsInput(nodes, r) ==>
      RestoreUnconnectable(nodes, c)[r.id].inputs[r.index].oldColor.None?
    ensures c.PendingInput? ==> forall id :: id in c.unconnectableOutputs && HasOutput(nodes, id) ==>
      RestoreUnconnectable(nodes, c)[id].output.value.oldColor.None?
    ensures RestoreUnconnectable(RestoreUnconnectable(nodes, c), c) == RestoreUnconnectable(nodes, c)
  {
    var m := RestoreUnconnectable(nodes, c);
    var m2 := RestoreUnconnectable(m, c);
    match c
    case NoPending =>
    case PendingOutput(_, u) =>
      forall id | id in m ensures m2[id] == m[id] {
        var pins := m[id].inputs;
        forall i | 0 <= i < |pins| ensures RestoreStrokes(id, pins, u)[i] == pins[i] {
          if InputRef(id, i) in u { ResetStrokeSettles(nodes[id].inputs[i]); }
        }
      }
    case PendingInput(_, _, u) =>
      forall id | id in m ensures m2[id] == m[id] {
        if id in u && nodes[id].output.Some? { ResetFillSettles(nodes[id].output.value); }
      }
  }
}
