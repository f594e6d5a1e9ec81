/** The node-placement rule of the node selector, on values: which
    selections are refused, and what node list an accepted one produces. */
module Placement {
  import opened NodeTypes

  /** A point in the canvas's own coordinates.  Where it comes from (the
      window centre plus random jitter, mapped through the canvas
      transform) is not modelled: callers pass it in. */
  datatype Position = Position(x: real, y: real)

  /** A node on the canvas.  `data` is the kind-specific payload. */
  datatype Node = Node(id: string, kind: NodeType, position: Position, data: map<string, string>)

  /** What a selection leads to: refused (the user is told a workflow can
      only have one manual trigger), or accepted with the new node list. */
  datatype Outcome = Rejected | Accepted(nodes: seq<Node>)

  /** True when some node of the list has the given kind. */
  function AnyOfKind(nodes: seq<Node>, kind: NodeType): (found: bool)
    ensures found <==> exists i :: 0 <= i < |nodes| && nodes[i].kind == kind
  {
    if nodes == [] then false
    else nodes[0].kind == kind || AnyOfKind(nodes[1..], kind)
  }

  /** How many nodes of the list have the given kind. */
  function CountKind(nodes: seq<Node>, kind: NodeType): (count: nat)
    ensures count <= |nodes|
    ensures count == 0 <==> !AnyOfKind(nodes, kind)
  {
    if nodes == [] then 0
    else (if nodes[0].kind == kind then 1 else 0) + CountKind(nodes[1..], kind)
  }

  /** The node a selection creates: the chosen kind, the freshly generated
      id, the computed position and an empty payload. */
  function NewNode(selection: NodeTypeOption, id: string, position: Position): Node
  {
    Node(id, selection.kind, position, map[])
  }

  /** The updater handed to `setNodes`: a placeholder anywhere in the list
      makes the new node the only one, otherwise it goes at the end. */
  function Place(nodes: seq<Node>, newNode: Node): seq<Node>
  {
    if AnyOfKind(nodes, Initial) then [newNode] else nodes + [newNode]
  }

  /** The whole handler: a manual trigger is refused when the list already
      has one, before the placeholder is looked at; everything else is
      placed. */
  function Decide(nodes: seq<Node>, selection: NodeTypeOption, id: string, position: Position): Outcome
  {
    if selection.kind == ManualTrigger && AnyOfKind(nodes, ManualTrigger) then Rejected
    else Accepted(Place(nodes, NewNode(selection, id, position)))
  }

  /** Appending one node adds one to its kind's count and nothing to the others. */
  lemma {:induction false} CountAppend(nodes: seq<Node>, node: Node, kind: NodeType)
    ensures CountKind(nodes + [node], kind) == CountKind(nodes, kind) + (if node.kind == kind then 1 else 0)
  {
    if nodes != [] {
      assert (nodes + [node])[1..] == nodes[1..] + [node];
      CountAppend(nodes[1..], node, kind);
    }
  }

  /** A selection is refused exactly when it is a manual trigger and some
      node of the list already is one. */
  lemma RejectedExactlyOnDuplicateTrigger(nodes: seq<Node>, selection: NodeTypeOption, id: string, position: Position)
    ensures Decide(nodes, selection, id, position).Rejected? <==>
            selection.kind == ManualTrigger && exists i :: 0 <= i < |nodes| && nodes[i].kind == ManualTrigger
  {
  }

  /** The duplicate-trigger refusal is decided before the placeholder rule,
      so it wins even when a placeholder would have cleared the list. */
  lemma DuplicateTriggerWinsOverPlaceholder(nodes: seq<Node>, selection: NodeTypeOption, id: string, position: Position)
    requires selection.kind == ManualTrigger
    requires AnyOfKind(nodes, ManualTrigger) && AnyOfKind(nodes, Initial)
    ensures Decide(nodes, selection, id, position) == Rejected
  {
  }

  /** Any kind but the manual trigger is always placed; in particular every
      entry of the execution category. */
  lemma NonTriggerNeverRejected(nodes: seq<Node>, selection: NodeTypeOption, id: string, position: Position)
    ensures selection.kind != ManualTrigger ==> Decide(nodes, selection, id, position).Accepted?
    ensures selection in ExecutionNodes() ==> Decide(nodes, selection, id, position).Accepted?
  {
  }

  /** With a placeholder present an accepted selection discards every
      prior node, the placeholder included, and leaves only the new node. */
  lemma PlaceholderReplaced(nodes: seq<Node>, selection: NodeTypeOption, id: string, position: Position)
    requires AnyOfKind(nodes, Initial)
    requires Decide(nodes, selection, id, position).Accepted?
    ensures Decide(nodes, selection, id, position).nodes == [Node(id, selection.kind, position, map[])]
    ensures selection.kind != Initial ==> !AnyOfKind(Decide(nodes, selection, id, position).nodes, Initial)
  {
  }

  /** Without a placeholder an accepted selection grows the list by one:
      every prior node is kept, unchanged and in its place, and the new
      node comes last. */
  lemma AppendKeepsPriorNodes(nodes: seq<Node>, selection: NodeTypeOption, id: string, position: Position)
    requires !AnyOfKind(nodes, Initial)
    requires Decide(nodes, selection, id, position).Accepted?
    ensures |Decide(nodes, selection, id, position).nodes| == |nodes| + 1
    ensures forall i :: 0 <= i < |nodes| ==> Decide(nodes, selection, id, position).nodes[i] == nodes[i]
    ensures Decide(nodes, selection, id, position).nodes[|nodes|] == Node(id, selection.kind, position, map[])
  {
  }

  /** Whatever branch is taken, the last node of an accepted list is the new
      one: the chosen kind, the given id and position, an empty payload. */
  lemma NewNodeIsLast(nodes: seq<Node>, selection: NodeTypeOption, id: string, position: Position)
    requires Decide(nodes, selection, id, position).Accepted?
    ensures var r := Decide(nodes, selection, id, position).nodes;
            |r| >= 1 && r[|r| - 1].id == id && r[|r| - 1].kind == selection.kind &&
            r[|r| - 1].position == position && r[|r| - 1].data == map[]
  {
  }

  /** The number of manual triggers after an accepted selection. */
  lemma {:induction false} TriggerCountAfter(nodes: seq<Node>, selection: NodeTypeOption, id: string, position: Position)
    requires Decide(nodes, selection, id, position).Accepted?
    ensures CountKind(Decide(nodes, selection, id, position).nodes, ManualTrigger) ==
            (if AnyOfKind(nodes, Initial) then 0 else CountKind(nodes, ManualTrigger))
            + (if selection.kind == ManualTrigger then 1 else 0)
  {
    var n := NewNode(selection, id, position);
    if !AnyOfKind(nodes, Initial) {
      CountAppend(nodes, n, ManualTrigger);
    } else {
      assert [n][1..] == [];
    }
  }

  /** At most one manual trigger before a selection means at most one after
      it, whether the selection is accepted or refused. */
  lemma {:induction false} SingleTriggerPreserved(nodes: seq<Node>, selection: NodeTypeOption, id: string, position: Position)
    requires CountKind(nodes, ManualTrigger) <= 1
    ensures match Decide(nodes, selection, id, position)
            case Rejected => true
            case Accepted(r) => CountKind(r, ManualTrigger) <= 1
  {
    if Decide(nodes, selection, id, position).Accepted? {
      TriggerCountAfter(nodes, selection, id, position);
    }
  }

  /** The ids of the nodes of a list. */
  function Ids(nodes: seq<Node>): set<string>
  {
    set i | 0 <= i < |nodes| :: nodes[i].id
  }

  /** No two nodes of the list share an id. */
  predicate DistinctIds(nodes: seq<Node>)
  {
    forall i, j :: 0 <= i < j < |nodes| ==> nodes[i].id != nodes[j].id
  }

  /** An accepted list holds only prior ids and the new one. */
  lemma IdsAfter(nodes: seq<Node>, selection: NodeTypeOption, id: string, position: Position)
    requires Decide(nodes, selection, id, position).Accepted?
    ensures Ids(Decide(nodes, selection, id, position).nodes) <= Ids(nodes) + {id}
    ensures id in Ids(Decide(nodes, selection, id, position).nodes)
  {
    var r := Decide(nodes, selection, id, position).nodes;
    assert r[|r| - 1].id == id;
    forall x | x in Ids(r) ensures x in Ids(nodes) + {id} {
      var i :| 0 <= i < |r| && r[i].id == x;
      if i < |r| - 1 {
        assert r[i] == nodes[i];
      }
    }
  }

  /** A fresh id keeps the ids of the list distinct. */
  lemma IdsStayDistinct(nodes: seq<Node>, selection: NodeTypeOption, id: string, position: Position)
    requires DistinctIds(nodes)
    requires id !in Ids(nodes)
    requires Decide(nodes, selection, id, position).Accepted?
    ensures DistinctIds(Decide(nodes, selection, id, position).nodes)
  {
  }

  /** One click on a catalogue entry, with the id and position the handler
      would generate for it. */
  datatype Attempt = Attempt(selection: NodeTypeOption, id: string, position: Position)

  /** The node list after one attempt: unchanged when refused. */
  function After(nodes: seq<Node>, attempt: Attempt): seq<Node>
  {
    match Decide(nodes, attempt.selection, attempt.id, attempt.position)
    case Rejected => nodes
    case Accepted(r) => r
  }

  /** The node list after a sequence of attempts, in order. */
  function Run(nodes: seq<Node>, attempts: seq<Attempt>): seq<Node>
    decreases |attempts|
  {
    if attempts == [] then nodes else Run(After(nodes, attempts[0]), attempts[1..])
  }

  /** No sequence of attempts brings a second manual trigger onto a canvas
      that has at most one. */
  lemma {:induction false} RunKeepsSingleTrigger(nodes: seq<Node>, attempts: seq<Attempt>)
    requires CountKind(nodes, ManualTrigger) <= 1
    ensures CountKind(Run(nodes, attempts), ManualTrigger) <= 1
    decreases |attempts|
  {
    if attempts != [] {
      var a := attempts[0];
      SingleTriggerPreserved(nodes, a.selection, a.id, a.position);
      RunKeepsSingleTrigger(After(nodes, a), attempts[1..]);
    }
  }

  /** At most one placeholder before an attempt means at most one after it:
      the placeholder is replaced, never accumulated. */
  lemma {:induction false} SinglePlaceholderPreserved(nodes: seq<Node>, attempt: Attempt)
    requires CountKind(nodes, Initial) <= 1
    ensures CountKind(After(nodes, attempt), Initial) <= 1
  {
    var n := NewNode(attempt.selection, attempt.id, attempt.position);
    if Decide(nodes, attempt.selection, attempt.id, attempt.position).Accepted? {
      if AnyOfKind(nodes, Initial) {
        assert [n][1..] == [];
      } else {
        CountAppend(nodes, n, Initial);
      }
    }
  }

  /** No sequence of attempts brings a second placeholder onto a canvas
      that has at most one. */
  lemma {:induction false} RunKeepsSinglePlaceholder(nodes: seq<Node>, attempts: seq<Attempt>)
    requires CountKind(nodes, Initial) <= 1
    ensures CountKind(Run(nodes, attempts), Initial) <= 1
    decreases |attempts|
  {
    if attempts != [] {
      SinglePlaceholderPreserved(nodes, attempts[0]);
      RunKeepsSinglePlaceholder(After(nodes, attempts[0]), attempts[1..]);
    }
  }

  /** A placeholder makes any accepted click discard an existing manual
      trigger unless the click places a trigger itself. */
  lemma PlaceholderDiscardsTrigger(nodes: seq<Node>, attempt: Attempt)
    requires AnyOfKind(nodes, Initial)
    requires attempt.selection.kind != ManualTrigger
    ensures !AnyOfKind(After(nodes, attempt), ManualTrigger)
  {
  }

  /** Every attempt picks an entry the catalogue offers. */
  predicate FromCatalogue(attempts: seq<Attempt>)
  {
    forall i :: 0 <= i < |attempts| ==> Offered(attempts[i].selection.kind)
  }

  /** Once a manual trigger stands on a canvas without a placeholder, it
      stays through any catalogue clicks, and no placeholder comes back. */
  lemma {:induction false} RunKeepsTrigger(nodes: seq<Node>, attempts: seq<Attempt>)
    requires AnyOfKind(nodes, ManualTrigger) && !AnyOfKind(nodes, Initial)
    requires FromCatalogue(attempts)
    ensures AnyOfKind(Run(nodes, attempts), ManualTrigger)
    ensures !AnyOfKind(Run(nodes, attempts), Initial)
    decreases |attempts|
  {
    if attempts != [] {
      var a := attempts[0];
      CatalogueWellFormed();
      assert Offered(a.selection.kind);
      var next := After(nodes, a);
      if Decide(nodes, a.selection, a.id, a.position).Accepted? {
        var n := NewNode(a.selection, a.id, a.position);
        assert next == nodes + [n];
        CountAppend(nodes, n, ManualTrigger);
        CountAppend(nodes, n, Initial);
      }
      var rest := attempts[1..];
      assert forall i :: 0 <= i < |rest| ==> rest[i] == attempts[i + 1];
      RunKeepsTrigger(next, rest);
    }
  }

  /** Hence every later click on the manual trigger is refused. */
  lemma {:induction false} LaterTriggersRefused(nodes: seq<Node>, attempts: seq<Attempt>, id: string, position: Position)
    requires AnyOfKind(nodes, ManualTrigger) && !AnyOfKind(nodes, Initial)
    requires FromCatalogue(attempts)
    ensures Decide(Run(nodes, attempts), TriggerNodes()[0], id, position) == Rejected
  {
    RunKeepsTrigger(nodes, attempts);
  }

  /** The ids of a sequence of attempts are pairwise distinct and none is
      already on the canvas. */
  predicate FreshIds(nodes: seq<Node>, attempts: seq<Attempt>)
  {
    (forall i, j :: 0 <= i < j < |attempts| ==> attempts[i].id != attempts[j].id) &&
    (forall i :: 0 <= i < |attempts| ==> attempts[i].id !in Ids(nodes))
  }

  /** Placing nodes with fresh, pairwise distinct ids keeps every id on the
      canvas distinct. */
  lemma {:induction false} RunKeepsIdsDistinct(nodes: seq<Node>, attempts: seq<Attempt>)
    requires DistinctIds(nodes)
    requires FreshIds(nodes, attempts)
    ensures DistinctIds(Run(nodes, attempts))
    decreases |attempts|
  {
    if attempts != [] {
      var a := attempts[0];
      var next := After(nodes, a);
      assert a.id !in Ids(nodes);
      if Decide(nodes, a.selection, a.id, a.position).Accepted? {
        IdsStayDistinct(nodes, a.selection, a.id, a.position);
        IdsAfter(nodes, a.selection, a.id, a.position);
      }
      assert Ids(next) <= Ids(nodes) + {a.id};
      var rest := attempts[1..];
      forall i | 0 <= i < |rest| ensures rest[i].id !in Ids(next) {
        assert rest[i] == attempts[i + 1];
      }
      forall i, j | 0 <= i < j < |rest| ensures rest[i].id != rest[j].id {
        assert rest[i] == attempts[i + 1] && rest[j] == attempts[j + 1];
      }
      RunKeepsIdsDistinct(next, rest);
    }
  }

  /** Placing a manual trigger on an empty canvas gives a one-node canvas. */
  lemma EmptyCanvasTakesTrigger(id: string, position: Position)
    ensures Decide([], TriggerNodes()[0], id, position) ==
            Accepted([Node(id, ManualTrigger, position, map[])])
  {
  }

  /** On a canvas holding only a manual trigger, a second one is refused
      and the canvas stays as it was. */
  lemma SecondTriggerRefused(existing: Node, id: string, position: Position)
    requires existing.kind == ManualTrigger
    ensures Decide([existing], TriggerNodes()[0], id, position) == Rejected
    ensures After([existing], Attempt(TriggerNodes()[0], id, position)) == [existing]
  {
  }

  /** An HTTP request placed on a canvas holding only the placeholder
      replaces it. */
  lemma HttpRequestReplacesPlaceholder(placeholder: Node, id: string, position: Position)
    requires placeholder.kind == Initial
    ensures Decide([placeholder], ExecutionNodes()[0], id, position) ==
            Accepted([Node(id, HttpRequest, position, map[])])
  {
  }
}
