# Node selector of the Nodebase workflow builder

Nodebase is a visual workflow builder. Users put nodes on a canvas: triggers
that start a workflow, and execution steps such as an HTTP request. The
node selector is the slide-in panel that lists the node kinds. When an entry
is clicked, its handler places a new node on the canvas under three rules:

- a second manual trigger is refused, and nothing changes;
- if the canvas still holds the `INITIAL` placeholder, the new node replaces the whole list;
- otherwise the new node is appended.

After an accepted selection the panel closes.

The model has three modules:

- `NodeTypes` (`node_types.dfy`) holds the node kinds, the catalogue entry record and the two catalogue categories.
- `Placement` (`placement.dfy`) holds the placement rule on values. `AnyOfKind` is the `some` test and `Place` is the updater handed to `setNodes`. `Decide` is the whole handler as a function from the current list to an `Outcome` (`Rejected`, or `Accepted` with the new list). `Run` replays a sequence of clicks. The lemmas state the rule's properties.
- `Selector` (`selector.dfy`) holds the class `NodeSelector`. Its fields are the canvas's node list and the panel's open flag. Its method `Select` is the click handler and changes both fields in place.

The handler reads the list for the duplicate check through `getNodes()` and
for the placeholder check through the updater's argument. The model reads
both from the same current state; the "React state batching" line under
"## Left out" says what this does not capture.

## Model

| member | source | states |
|---|---|---|
| NodeTypes.CatalogueWellFormed | nodebase/src/components/node-selector.tsx:20-36 | the trigger and execution categories are disjoint; every catalogue entry has its own kind; the trigger category holds only the manual trigger; exactly the kinds other than the placeholder are offered |
| Placement.AnyOfKind | nodebase/src/components/node-selector.tsx:50-52 | the `some` test is true exactly when some node of the list has the kind |
| Placement.CountKind | nodebase/src/components/node-selector.tsx:48-57 | the number of nodes of a kind is at most the list length, and it is zero exactly when no node has that kind |
| Placement.CountAppend | nodebase/src/components/node-selector.tsx:84 | appending a node raises the count of its own kind by one and leaves the other counts unchanged |
| Placement.RejectedExactlyOnDuplicateTrigger | nodebase/src/components/node-selector.tsx:48-57 | a selection is refused if and only if it is a manual trigger and the list already holds one |
| Placement.DuplicateTriggerWinsOverPlaceholder | nodebase/src/components/node-selector.tsx:48-63 | the duplicate-trigger refusal is checked first, so it applies even when a placeholder is present |
| Placement.NonTriggerNeverRejected | nodebase/src/components/node-selector.tsx:48-87 | any kind other than the manual trigger is accepted, including every execution entry |
| Placement.PlaceholderReplaced | nodebase/src/components/node-selector.tsx:60-82 | with a placeholder present, an accepted selection yields exactly the one-node list holding the new node, and no placeholder remains |
| Placement.AppendKeepsPriorNodes | nodebase/src/components/node-selector.tsx:84 | without a placeholder, an accepted selection grows the list by one; every prior node is unchanged and keeps its index; the new node is last |
| Placement.NewNodeIsLast | nodebase/src/components/node-selector.tsx:73-84 | the node added by an accepted selection is last, has the selected kind, the generated id and the given position, and has an empty payload |
| Placement.TriggerCountAfter | nodebase/src/components/node-selector.tsx:48-84 | after an accepted selection, the manual-trigger count is the prior count (zero if a placeholder was present) plus one if a manual trigger was chosen |
| Placement.SingleTriggerPreserved | nodebase/src/components/node-selector.tsx:48-84 | at most one manual trigger before a selection implies at most one after it, whether accepted or refused |
| Placement.IdsAfter | nodebase/src/components/node-selector.tsx:73-84 | an accepted list holds the generated id, and otherwise only ids that were already there |
| Placement.IdsStayDistinct | nodebase/src/components/node-selector.tsx:74-84 | when the generated id is new to the list, distinct ids stay distinct after the selection |
| Placement.RunKeepsSingleTrigger | nodebase/src/components/node-selector.tsx:47-93 | no sequence of clicks brings a second manual trigger onto a canvas that has at most one |
| Placement.RunKeepsIdsDistinct | nodebase/src/components/node-selector.tsx:47-93 | if the generated ids are pairwise distinct and new to the canvas, node ids stay distinct through any sequence of clicks |
| Placement.SinglePlaceholderPreserved | nodebase/src/components/node-selector.tsx:60-84 | at most one placeholder before a click means at most one after it, whether accepted or refused |
| Placement.RunKeepsSinglePlaceholder | nodebase/src/components/node-selector.tsx:47-93 | no sequence of clicks brings a second placeholder onto a canvas that has at most one |
| Placement.PlaceholderDiscardsTrigger | nodebase/src/components/node-selector.tsx:60-81 | with a placeholder present, any click on a kind other than the manual trigger leaves no manual trigger on the canvas |
| Placement.RunKeepsTrigger | nodebase/src/components/node-selector.tsx:47-93 | once a manual trigger stands on a canvas without a placeholder, any sequence of catalogue clicks keeps a manual trigger and brings back no placeholder |
| Placement.LaterTriggersRefused | nodebase/src/components/node-selector.tsx:48-57 | on such a canvas, a manual-trigger click after any sequence of catalogue clicks is refused |
| Placement.EmptyCanvasTakesTrigger | nodebase/src/components/node-selector.tsx:47-87 | choosing the manual trigger on an empty canvas gives the one-node list holding the new trigger |
| Placement.SecondTriggerRefused | nodebase/src/components/node-selector.tsx:48-57 | choosing the manual trigger on a canvas holding only a manual trigger is refused, and the list stays as it was |
| Placement.HttpRequestReplacesPlaceholder | nodebase/src/components/node-selector.tsx:60-82 | choosing the HTTP request on a canvas holding only the placeholder gives the one-node list holding the HTTP request node |
| Selector.NodeSelector.constructor | nodebase/src/components/node-selector.tsx:38-45 | the selector starts with the given node list and open flag |
| Selector.NodeSelector.Select | nodebase/src/components/node-selector.tsx:47-93 | the outcome is the one the placement rule decides. It is refused exactly on a duplicate manual trigger, and then the node list and the open flag are unchanged. On acceptance the node list becomes the placed list and the panel is closed. At most one manual trigger stays at most one |

## Left out

- Node position: the window centre, the random jitter of up to 100 pixels per axis (lines 65-71) and the `screenToFlowPosition` transform use the window size, `Math.random()`, floating point and a canvas library call. The position is a parameter of `Select` and `Decide`.
- Id generation: `createId()` (line 74) is a foreign generator. The id is a parameter. Freshness is assumed only by the id-distinctness lemmas, because the handler itself never checks it.
- The error notification `toast.error` (line 55) is represented only by the `Rejected` outcome.
- The panel markup (lines 95-172): the sheet, the category separator, the rendering of a string icon as an image and of a component icon as an element, and the wiring of each entry's click to the handler. The sheet's own opening and dismissal go through the parent's `onOpenChange`, which is not part of this model. Only the handler's `onOpenChange(false)` is modelled, as `open := false`.
- Node kinds: the node kind enumeration comes from generated database code, which is not part of this model. The model assumes its three tags. Canvas nodes whose type falls outside these tags are not modelled.
- Node payload: `data` is modelled as a `map<string, string>`. The handler only ever creates it empty.
- React state batching: `setNodes` applies its updater later, during rendering, to the list as it is then; the duplicate check reads `getNodes()` at click time. The model applies the updater at once, on the same state the duplicate check read, so it does not capture a list that changes between the two reads.
- The workflow list and creation screen (`nodebase/src/features/workflows/components/workflows.tsx`), the landing page's remote queries (`nodebase/src/app/page.tsx`), the auth and billing configuration (`nodebase/src/lib/auth.ts`) and the header layout (`nodebase/src/components/app-header.tsx`) are remote calls, framework glue or static layout with no local logic.
