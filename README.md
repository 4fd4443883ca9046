# Pointer interaction of the node-graph editor

This project models the pointer layer of the editor's canvas, in
`src/typescript/render.ts`. That layer keeps one mutable geometry cache. The
cache holds:

- the node geometries;
- the draw order and the set of selected nodes;
- the pending half of a connection the user is drawing, and its preview line;
- the node or pin captured for dragging;
- one remembered hover highlight for each kind of shape: output, input pin,
  connection line and node background.

The press, move, release and double-click handlers update the cache and return
a command for the controller (`Goto`, `EditNode`, `SelectInput`,
`SelectOutput`, `CreateConnection`, `DeleteConnection` or `Nothing`).

The model is written in Dafny.

- `EditorState` is a class whose fields are the cache. Each handler and
  helper of the source that writes the cache is a method with a `modifies`
  clause, with two exceptions. `resetColor` and `moveNode` change one shape,
  and they are functions on values (`ResetStroke`, `ResetFill`, `MoveNode`)
  whose results the methods write back into the node map.
  `onDoubleClick` writes nothing and is a method outside the class.
- Six step methods state only their effect on the fields they write:
  `UnselectNode`, `ResetInputStrokes`, `ResetOutputFills`, `UnselectEach`,
  `MoveSelectedNodes` and `RefreshMovedArcs`. The method that calls them
  re-establishes the cache invariant `Valid()`. Every other method of
  `EditorState` requires and keeps `Valid()`. The invariant says that:
  - the draw order lists every node exactly once;
  - selected nodes exist;
  - the pending connection, the hover references and the drag target name
    existing nodes and pins;
  - no temporary wiring override is left behind.
- Each method is proved against a pure specification function, and the
  properties the source relies on are proved about those functions as
  lemmas.

The modules are:

- `ZOrder` (`zorder.dfy`): the draw order and bringing a node to the front.
- `Geometry` (`geometry.dfy`):
  - the value types: node geometry, pins, mouse targets, the pending
    connection, commands and preview;
  - the colour reset of one shape;
  - moving one node;
  - the "layout" (which pins and lines exist), which every attribute write
    preserves.
- `Connection` (`connection.dfy`):
  - the partial-connection state machine as pure step functions for an
    output click and an input click (a press on the background is the
    method `EditorState.CancelConnection`);
  - the colour-restore effect that ends a pending connection.
- `Hover` (`hover.dfy`): the hover and clear steps of a pointer move, for each
  of the four highlight kinds, and their composition kind by kind.
- `HoverOrder` (`hover_order.dfy`): the same steps in the source's order (all
  hovers, then all clears), proved to end in the same state.
- `Render` (`render.dfy`): the cache as `EditorState`, its handlers and the
  module-level specifications they are proved against.

The external pieces are taken as follows:

- **Hit-testing and buttons.** Hit-testing (`getMouseTarget`) and button
  decoding (`isPressed`) are inputs. A handler receives the hit target, the
  held buttons, the control key, the pointer position and the movement
  offset.
- **Arc recomputation.** The arc recomputation of the wiring collaborator
  (`refreshInputArcsImpl`) is modelled as an append-only log
  `arcRequests`. Each entry records the node and the wiring overrides in
  force at the call.

## Model

| member | source | states |
|---|---|---|
| ZOrder.RemoveFirst | src/typescript/render.ts:350-354 | removing the first cell of `x` leaves the order unchanged when `x` is absent and one shorter when present |
| ZOrder.RemoveFirstDrops | src/typescript/render.ts:350-354 | on a duplicate-free order, the removal leaves no `x`, no duplicate, and exactly the other ids |
| ZOrder.BringToFront | src/typescript/render.ts:349-355 | the selected id ends up last; an id already in the order keeps its length, a new one is appended |
| ZOrder.BringToFrontShape | src/typescript/render.ts:350-356 | after find, remove and push, the id is last and occurs once, the order stays duplicate-free, and the ids are the old ones plus the pushed one |
| ZOrder.BringToFrontKeepsOrder | src/typescript/render.ts:350-356 | bringing one node to the front keeps the relative draw order of every other pair of nodes |
| Geometry.ResetStroke | src/typescript/render.ts:379-384 | resetting an input's stroke acts only when a colour is saved: it puts that colour back, forgets it and keeps the width |
| Geometry.ResetFill | src/typescript/render.ts:379-384 | the same for an output's fill, keeping its radius |
| Geometry.ResetStrokeSettles | src/typescript/render.ts:379-384 | a second stroke reset changes nothing |
| Geometry.ResetFillSettles | src/typescript/render.ts:379-384 | a second fill reset changes nothing |
| Geometry.MoveNode | src/typescript/render.ts:505-515 | a move changes only the position and the two labels, and a node keeps or lacks its name label as before |
| Geometry.MoveNodeShifts | src/typescript/render.ts:505-515 | moving a node shifts its position, its value label and its name label (if any) by the offset; moving back by the opposite offset restores it; two moves add up |
| Connection.ClickOutput | src/typescript/render.ts:440-456 | an output click returns `Nothing`, a create command or a select command; `Nothing` changes nothing; the pending connection ends exactly when a connection is created, which names this output and restores colours; a select starts a fresh pending output at this output |
| Connection.ClickInput | src/typescript/render.ts:473-496 | an input click returns `Nothing`, a create command or a select command; `Nothing` changes nothing; the pending connection ends exactly when a connection is created, which names this pin and restores colours; a select starts a fresh pending input at this pin |
| Connection.RejectedConnection | src/typescript/render.ts:434-496 | a pin click returns `Nothing` exactly when the pin is unconnectable for a pending connection of the other direction; a rejection keeps the pending connection and restores no colour |
| Connection.AcceptedConnection | src/typescript/render.ts:413-496 | a connection is created exactly when a pin of the other direction is clicked and is not unconnectable; the command names the output first, the pending connection ends and its colours are restored |
| Connection.FreshPending | src/typescript/render.ts:434-496 | otherwise the click starts a fresh pending connection with an empty unconnectable set; an input replacing a pending input restores the old colours, an output replacing a pending output does not |
| Connection.EndedPendingIsRestored | src/typescript/render.ts:413-496 | every pin click that ends or replaces a pending connection restores its colours, except an output replacing a pending output |
| Connection.RestoreUnconnectable | src/typescript/render.ts:391-403 | ending a pending connection adds or removes no node, pin or line |
| Connection.RestoreUnconnectableEffect | src/typescript/render.ts:391-403 | ending a pending output resets exactly the unconnectable input strokes; ending a pending input resets exactly the unconnectable output fills; nothing else changes |
| Connection.RestoreUnconnectableIdempotent | src/typescript/render.ts:391-403 | after a restore the unconnectable pins carry no saved colour, so restoring twice equals restoring once |
| Hover.HoverOutputOn | src/typescript/render.ts:692-707 | the output hover step keeps the layout, and its reference names an existing output |
| Hover.ClearOutputOn | src/typescript/render.ts:752-755 | the output clear step keeps the layout, and its reference names an existing output |
| Hover.TrackOutputOn | src/typescript/render.ts:691-755 | hover (while idle) then clear, for outputs, keeps the layout and a valid reference |
| Hover.TrackOutputRef | src/typescript/render.ts:691-755 | off every output no output stays highlighted; on the highlighted one nothing changes; on another, an idle pointer moves the highlight there exactly when the pending connection allows it, otherwise the old one is kept |
| Hover.TrackOutputRadii | src/typescript/render.ts:691-755 | a newly highlighted output has the hover radius; the old one gets the normal radius when it loses the highlight or an idle pointer reaches another output, even a refused one; no other output changes |
| Hover.OutputKeepsFills | src/typescript/render.ts:691-755 | the output step keeps every node and every background fill |
| Hover.OutputFrame | src/typescript/render.ts:691-755 | the output step changes only output radii: every other attribute of every node, and every output's fill and saved colour, stay |
| Hover.HoverInputOn | src/typescript/render.ts:710-720 | the input hover step keeps the layout, and its reference names an existing input |
| Hover.ClearInputOn | src/typescript/render.ts:757-760 | the input clear step keeps the layout, and its reference names an existing input |
| Hover.TrackInputOn | src/typescript/render.ts:710-760 | hover then clear, for inputs, keeps the layout and a valid reference |
| Hover.TrackInputRef | src/typescript/render.ts:710-760 | off every input no input stays highlighted; an idle pointer on another input moves the highlight there; with a button held the old one is kept |
| Hover.TrackInputWeights | src/typescript/render.ts:710-760 | a newly highlighted input has the hover weight; one that loses the highlight has the normal weight; no other input changes |
| Hover.InputKeepsFills | src/typescript/render.ts:710-760 | the input step keeps every node and every background fill |
| Hover.InputFrame | src/typescript/render.ts:710-760 | the input step changes only input stroke weights: every other attribute of every node, and every input's stroke and saved colour, stay |
| Hover.HoverLineOn | src/typescript/render.ts:723-733 | the line hover step keeps the layout, and its reference names an existing line |
| Hover.ClearLineOn | src/typescript/render.ts:762-765 | the line clear step keeps the layout, and its reference names an existing line |
| Hover.TrackLineOn | src/typescript/render.ts:723-765 | hover then clear, for lines, keeps the layout and a valid reference |
| Hover.TrackLineRef | src/typescript/render.ts:723-765 | off every line no line stays highlighted; an idle pointer on another line moves the highlight there; with a button held the old one is kept |
| Hover.TrackLineWeights | src/typescript/render.ts:723-765 | a newly highlighted line has the hover weight; one that loses the highlight has the normal weight; no other line changes |
| Hover.LineKeepsFills | src/typescript/render.ts:723-765 | the line step keeps every node and every background fill |
| Hover.LineFrame | src/typescript/render.ts:723-765 | the line step changes only line weights: every other attribute of every node stays |
| Hover.HoverNodeOn | src/typescript/render.ts:736-748 | the node hover step keeps the layout, and its reference names an existing node |
| Hover.ClearNodeOn | src/typescript/render.ts:767-774 | the node clear step keeps the layout, and its reference names an existing node |
| Hover.TrackNodeOn | src/typescript/render.ts:736-774 | hover then clear, for nodes, keeps the layout and a valid reference |
| Hover.TrackNodeRef | src/typescript/render.ts:736-774 | off every node the highlight is dropped only while its node still shows the hover fill; an idle pointer on another node moves the highlight there only when that node shows no fill |
| Hover.TrackNodeFills | src/typescript/render.ts:736-774 | a fill changes only by the old highlight losing it, or by a plain node under an idle pointer taking the hover fill; a newly highlighted node shows the hover fill; a node that loses the highlight shows no fill |
| Hover.NodeFrame | src/typescript/render.ts:736-774 | the node step changes only background fills: every other attribute of every node stays |
| Hover.SameLayoutKeepsHoverRefs | src/typescript/render.ts:691-774 | hover references stay valid across every attribute write, because none changes which pins and lines exist |
| Hover.TrackPins | src/typescript/render.ts:691-760 | the output and input steps of a move keep the layout and leave every reference valid |
| Hover.TrackRest | src/typescript/render.ts:723-774 | the line and node steps of a move keep the layout and leave every reference valid |
| Hover.TrackAll | src/typescript/render.ts:691-774 | the four hover-and-clear steps of a move keep the layout and leave every reference valid |
| Hover.PinRefs | src/typescript/render.ts:691-760 | after the pin steps, an output or input stays highlighted only when it is the kind under the pointer, and an idle pointer on an input highlights it; line and node references are untouched |
| Hover.TrackAllRefs | src/typescript/render.ts:691-774 | after a move, at most one output, input or line stays highlighted, and only one of the kind under the pointer; an idle pointer on an input or a line highlights it |
| Hover.PinsKeepFills | src/typescript/render.ts:691-760 | the pin steps leave every background fill alone |
| Hover.RestFills | src/typescript/render.ts:723-774 | the line and node steps change a fill only by dropping the old node highlight or by hover-filling a plain node under an idle pointer; a node that loses the highlight shows no fill |
| Hover.TrackAllFills | src/typescript/render.ts:691-774 | a whole move changes a fill only by dropping the old node highlight or by hover-filling a plain node under an idle pointer; a selected node's fill is otherwise kept; a node that loses the highlight shows no fill |
| HoverOrder.SourceMove | src/typescript/render.ts:691-774 | the source's order (all hovers while no button is held, then all clears) keeps the layout and leaves every reference valid |
| HoverOrder.KindByKindIsSourceOrder | src/typescript/render.ts:691-774 | running hover-and-clear kind by kind (`TrackAll`) ends in the same highlights and geometry as the source's order, for every target and button state |
| Render.ClearBackgrounds | src/typescript/render.ts:590-592 | clearing backgrounds keeps the layout |
| Render.MoveSelected | src/typescript/render.ts:523-526 | moving the selected nodes keeps the layout |
| Render.NeedsArcRefresh | src/typescript/render.ts:529-536 | a node needs new arcs only when it has a known wiring and something is selected |
| Render.NothingToRefresh | src/typescript/render.ts:528-538 | with nothing selected, a move asks for no arc recomputation |
| Render.MoveLogUnselected | src/typescript/render.ts:523-538 | with nothing selected, a pointer move logs only the preview's request |
| Render.ReleaseLog | src/typescript/render.ts:584-597 | after a release the request log grows by exactly the preview's request |
| Render.MoveNothing | src/typescript/render.ts:523-526 | moving an empty selection leaves every node where it is |
| Render.ReleaseScene | src/typescript/render.ts:584-597 | the release's highlights and geometry keep the layout |
| Render.PreviewAfter | src/typescript/render.ts:80-116 | with nothing pending the preview is kept; otherwise it ends at the pointer; for a pending output with an output it starts at that node's position with the output's fill; for a pending input its start is kept |
| Render.PreviewRequests | src/typescript/render.ts:93-106 | at most one request, for the pending input with that input wired to the pointer; there is one exactly when a pending input's node has a known wiring |
| Render.CancelRequests | src/typescript/render.ts:631-640 | at most one request, for the pending input without overrides; there is one exactly when a pending input's node has a known wiring |
| Render.ReleaseClearsSelection | src/typescript/render.ts:584-597 | after a release no node shows the selected fill: every fill is gone, except the hover fill of a node under an idle pointer; the set of nodes is unchanged |
| Render.IsUnconnectableInput | src/typescript/render.ts:473-479 | the loop over a pending output's unconnectable inputs finds a match exactly when the clicked pin is in the set |
| Render.OnDoubleClick | src/typescript/render.ts:802-815 | a double click returns a command exactly on a node, and that command edits the node |
| Render.EditorState.constructor | src/typescript/render.ts:44-58 | the empty cache: no nodes, no selection, nothing pending, captured or highlighted, an empty log, and the invariant holds |
| Render.EditorState.SelectNode | src/typescript/render.ts:342-358 | adds the node to the selection, drops a hover reference to it, brings it to the front of the draw order, gives it the selected fill, and keeps the invariant |
| Render.EditorState.UnselectNode | src/typescript/render.ts:367-371 | removes the node from the selection and clears its background fill, nothing else |
| Render.EditorState.ResetUnconnectableColor | src/typescript/render.ts:391-403 | the nodes become the colour restore of the pending connection; the invariant is kept |
| Render.EditorState.ResetInputStrokes | src/typescript/render.ts:394-397 | the loop over a pending output's unconnectable inputs yields the restore of exactly those strokes |
| Render.EditorState.ResetOutputFills | src/typescript/render.ts:398-401 | the loop over a pending input's unconnectable outputs yields the restore of exactly those fills |
| Render.EditorState.CreateConnection | src/typescript/render.ts:413-424 | restores the pending connection's colours, ends it, and returns the create command for the two pins |
| Render.EditorState.UpdateConnectionPreview | src/typescript/render.ts:80-116 | the preview becomes the preview after the move (it ends at the pointer; for a pending output it starts at the output's node with its fill; for a pending input with a wiring it takes the input's stroke); a pending input with a wiring adds one request with the input wired to the pointer; the override is gone afterwards, so the nodes are unchanged |
| Render.EditorState.SelectOutput | src/typescript/render.ts:434-455 | the new pending connection, the command and the colour restore are those of the output-click step; the preview follows the pointer only when a fresh pending output starts |
| Render.EditorState.SelectInput | src/typescript/render.ts:467-496 | the new pending connection, the command and the colour restore are those of the input-click step; the preview and its request follow only when a fresh pending input starts |
| Render.EditorState.SetOutputRadius | src/typescript/render.ts:696-705 | writes one output radius and keeps the invariant |
| Render.EditorState.SetInputWeight | src/typescript/render.ts:714-719 | writes one input stroke width and keeps the invariant |
| Render.EditorState.SetLineWeight | src/typescript/render.ts:727-732 | writes one line stroke width and keeps the invariant |
| Render.EditorState.SetBackground | src/typescript/render.ts:740-746 | writes one background fill and keeps the invariant |
| Render.EditorState.UnselectAllNodes | src/typescript/render.ts:590-592 | every node is unselected and its fill cleared; the invariant is kept |
| Render.EditorState.UnselectEach | src/typescript/render.ts:590-592 | the loop calling `unselectNode` on every node clears every fill and removes every node from the selection |
| Render.EditorState.MoveSelectedNodes | src/typescript/render.ts:524-526 | the loop moves exactly the selected nodes by the offset |
| Render.EditorState.RefreshMovedArcs | src/typescript/render.ts:528-538 | the loop appends one request without overrides for each node with a wiring that is selected with some input wired, or has an input wired from a selected node, and no other request; earlier entries are kept |
| Render.EditorState.MoveNodes | src/typescript/render.ts:523-539 | moves exactly the selected nodes, then requests new arcs for exactly the nodes that need them; the invariant is kept |
| Render.EditorState.HoverOutput | src/typescript/render.ts:692-707 | the output highlight and nodes become those of the output hover step |
| Render.EditorState.HoverInput | src/typescript/render.ts:710-720 | the input highlight and nodes become those of the input hover step |
| Render.EditorState.HoverConnection | src/typescript/render.ts:723-733 | the line highlight and nodes become those of the line hover step |
| Render.EditorState.HoverNode | src/typescript/render.ts:736-748 | the node highlight and nodes become those of the node hover step |
| Render.EditorState.ClearOutputHover | src/typescript/render.ts:752-755 | the output highlight and nodes become those of the output clear step |
| Render.EditorState.ClearInputHover | src/typescript/render.ts:757-760 | the input highlight and nodes become those of the input clear step |
| Render.EditorState.ClearConnectionHover | src/typescript/render.ts:762-765 | the line highlight and nodes become those of the line clear step |
| Render.EditorState.ClearNodeHover | src/typescript/render.ts:767-774 | the node highlight and nodes become those of the node clear step |
| Render.EditorState.TrackOutputHover | src/typescript/render.ts:691-755 | hover (only while idle) then clear, for outputs, as `TrackOutputOn` specifies |
| Render.EditorState.TrackInputHover | src/typescript/render.ts:710-760 | hover (only while idle) then clear, for inputs, as `TrackInputOn` specifies |
| Render.EditorState.TrackConnectionHover | src/typescript/render.ts:723-765 | hover (only while idle) then clear, for lines, as `TrackLineOn` specifies |
| Render.EditorState.TrackNodeHover | src/typescript/render.ts:736-774 | hover (only while idle) then clear, for nodes, as `TrackNodeOn` specifies |
| Render.EditorState.TrackPinHovers | src/typescript/render.ts:691-760 | the hover references and nodes become those of `TrackPins` |
| Render.EditorState.TrackRestHovers | src/typescript/render.ts:723-774 | the hover references and nodes become those of `TrackRest` |
| Render.EditorState.TrackHovers | src/typescript/render.ts:691-774 | the hover references and nodes become those of `TrackAll` |
| Render.EditorState.CancelConnection | src/typescript/render.ts:630-645 | a press on the background ends the pending connection and restores its colours; a pending input with a wiring first has its arcs recomputed once, without overrides |
| Render.EditorState.OnMouseDown | src/typescript/render.ts:607-660 | per target: on a node, left with control jumps and right edits, with the cache untouched; otherwise the node is selected and captured; the background cancels the pending connection and is captured; a pin runs that pin's click step, and a fresh pending connection moves the preview to the pointer (an input also logs the preview's request); a line asks for deletion with the cache untouched |
| Render.EditorState.FollowPointer | src/typescript/render.ts:776-788 | a held left button moves the selection and logs its arc refreshes; then the preview follows the pointer and logs its request |
| Render.EditorState.OnMouseMove | src/typescript/render.ts:670-792 | acts on the captured target if any, else on the hit; highlights and nodes are those of `TrackAll` on that target (hovering only with no button held), then moved when the left button is held; the preview follows the pointer; the log grows by the drag refreshes and the preview request; returns `Nothing` |
| Render.EditorState.ReleaseNodes | src/typescript/render.ts:590-594 | every node is unselected with its fill cleared, and the drag capture ends |
| Render.EditorState.MoveUnselected | src/typescript/render.ts:596 | with nothing selected or captured, a move is the hover step of `TrackAll` with nothing dragged, and logs only the preview's request |
| Render.EditorState.MoveAfterRelease | src/typescript/render.ts:596 | the move after unselecting everything yields `ReleaseScene` of the nodes before the release |
| Render.EditorState.OnMouseUp | src/typescript/render.ts:584-597 | nothing stays selected or captured; highlights and nodes are `ReleaseScene` of the old cache; the preview follows the pointer; the log grows by the preview request only; returns `Nothing` |

## Left out

- Rendering (`renderScene`), the camera, panning with the right button and the mouse transforms are not modelled. They concern drawing and floating-point matrices, and do not affect the cache state modelled here.
- Hit-testing (`getMouseTarget`, `getEventData`) and button decoding (`isPressed`) are parameters. Every handler requires a hit target that names an existing node, pin or line, as hit-testing only reports those.
- `refreshInputArcsImpl` is recorded as a request in the log. The arcs it computes, and the label `refresh()` calls of `moveNode`, are not modelled.
- Positions are integer vectors. The source adds floating-point vectors in place.
- Aliasing is not modelled. The source keeps object references, and the model keeps ids and (id, index) pairs. Each reference in the source names one shape, so the two agree.
- Iteration order over sets and maps is not modelled. Each loop is proved for any order: it picks any remaining element.
- The unconnectable sets and saved colours are set by code outside this file. The model starts each pending connection with an empty set, as the source does, and takes any set the cache holds.
- Geometry.ResetStroke: an input whose shape carries no `oldColor` attribute at all (the source's test is `oldColor !== null`, so a missing attribute counts as saved) would get an undefined stroke; the model has one "no saved colour" state for both a missing and a `null` attribute and leaves such a pin unchanged. The unconnectable sets are filled outside this file, so which pins could lack the attribute is not part of this model.
- Render.EditorState.UpdateConnectionPreview: the start of the preview for a pending input (`closestPoint` on the input arc) is not modelled, because it is floating-point geometry. That start keeps its old value.
- Render.EditorState.OnMouseMove: the right-button pan is not modelled, for the reason above.
- Behaviour a user might not expect from the editor is modelled as the code does it:
  - A new output click while an output is pending replaces it without restoring the old unconnectable colours.
  - Hover suppression for unconnectable pins applies only to outputs.
  - A press on a node both selects the node and captures it for dragging.
  - A press on the background captures the background, so later moves act on no target until the release.
  - A highlight whose shape is left while a button is held is cleared, but no new hover is applied.
- The model's order of writes differs from the source in two places; the end states are the same:
  - `TrackAll` runs hover-and-clear kind by kind, where the source runs all four hovers, then all four clears. `HoverOrder.SourceMove` models the source's order, and `HoverOrder.KindByKindIsSourceOrder` proves that both orders end in the same state. The handlers use `TrackAll`.
  - The release handler runs its move through two helper methods, where the source calls the move handler directly.
