/** The node kinds a workflow canvas knows about and the catalogue the node
    selector offers, split into trigger entries and execution entries. */
module NodeTypes {

  /** The workflow node kinds: `INITIAL` is the placeholder that stands on an
      empty canvas, `MANUAL_TRIGGER` starts a workflow by hand and
      `HTTP_REQUEST` calls an API endpoint. */
  datatype NodeType = Initial | ManualTrigger | HttpRequest

  /** An entry's icon is either a built-in icon component, named here, or
      the URL of an image. */
  datatype Icon = Component(name: string) | ImageUrl(url: string)

  /** One entry of the catalogue (`label` is a Dafny keyword, hence
      `displayLabel`); its identity is its `kind`. */
  datatype NodeTypeOption = NodeTypeOption(
    kind: NodeType,
    displayLabel: string,
    description: string,
    icon: Icon)

  /** The entries shown under "triggers". */
  function TriggerNodes(): seq<NodeTypeOption>
  {
    [NodeTypeOption(ManualTrigger, "Manual Trigger",
                    "Trigger the workflow manually", Component("MousePointerIcon"))]
  }

  /** The entries shown under "execution". */
  function ExecutionNodes(): seq<NodeTypeOption>
  {
    [NodeTypeOption(HttpRequest, "HTTP Request",
                    "Make an HTTP request to an API endpoint", Component("GlobeIcon"))]
  }

  /** Everything the selector offers, triggers first. */
  function Catalogue(): seq<NodeTypeOption>
  {
    TriggerNodes() + ExecutionNodes()
  }

  /** Some entry of the catalogue has the given kind. */
  predicate Offered(kind: NodeType)
  {
    exists i :: 0 <= i < |Catalogue()| && Catalogue()[i].kind == kind
  }

  /** The two categories are disjoint, every entry has a distinct kind (its
      identity), the placeholder kind is never offered, the trigger category
      holds exactly the manual trigger and every kind but the placeholder is
      offered. */
  lemma CatalogueWellFormed()
    ensures forall i, j :: 0 <= i < |TriggerNodes()| && 0 <= j < |ExecutionNodes()| ==>
              TriggerNodes()[i].kind != ExecutionNodes()[j].kind
    ensures forall i, j :: 0 <= i < j < |Catalogue()| ==> Catalogue()[i].kind != Catalogue()[j].kind
    ensures forall i :: 0 <= i < |Catalogue()| ==> Catalogue()[i].kind != Initial
    ensures forall i :: 0 <= i < |TriggerNodes()| ==> TriggerNodes()[i].kind == ManualTrigger
    ensures forall k: NodeType :: Offered(k) <==> k != Initial
  {
    var c := Catalogue();
    assert c[0].kind == ManualTrigger && c[1].kind == HttpRequest;
  }
}
