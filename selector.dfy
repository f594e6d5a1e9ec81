/** The node selector panel together with the canvas state its handler
    updates: the node list behind `getNodes`/`setNodes` and the panel's
    open flag behind `onOpenChange`. */
module Selector {
  import opened NodeTypes
  import opened Placement

  class NodeSelector {
    /** The canvas's node list. */
    var nodes: seq<Node>
    /** Whether the selector panel is open. */
    var open: bool

    constructor (nodes: seq<Node>, open: bool)
      ensures this.nodes == nodes && this.open == open
    {
      this.nodes := nodes;
      this.open := open;
    }

    /** The click handler of a catalogue entry.  `id` is the freshly
        generated node id and `position` the canvas point computed for the
        new node. */
    method Select(selection: NodeTypeOption, id: string, position: Position) returns (outcome: Outcome)
      modifies this
      ensures outcome == Decide(old(nodes), selection, id, position)
      ensures outcome.Rejected? <==>
              selection.kind == ManualTrigger && AnyOfKind(old(nodes), ManualTrigger)
      ensures outcome.Rejected? ==> nodes == old(nodes) && open == old(open)
      ensures outcome.Accepted? ==> nodes == outcome.nodes && !open
      ensures CountKind(old(nodes), ManualTrigger) <= 1 ==> CountKind(nodes, ManualTrigger) <= 1
    {
      if selection.kind == ManualTrigger {
        var current := nodes;
        var hasManualTrigger := AnyOfKind(current, ManualTrigger);
        if hasManualTrigger {
          outcome := Rejected;
          return;
        }
      }
      ghost var before := nodes;
      var newNode := NewNode(selection, id, position);
      nodes := Place(nodes, newNode);
      open := false;
      outcome := Accepted(nodes);
      if CountKind(before, ManualTrigger) <= 1 {
        SingleTriggerPreserved(before, selection, id, position);
      }
    }
  }
}
