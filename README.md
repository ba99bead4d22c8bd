# Workflow editor: state core in Dafny

This project models the core of a browser-based workflow editor. Users place
*actions* and *triggers* in two lists and connect them one-to-one, with
undo/redo over the editing history. Two pieces of code are modelled:

- **The workflow slice** (`src/rdx/workflow/slice.ts`). This is a Redux
  reducer over a draft state. The draft holds `current`, which is the two
  entity maps `actionMap` and `triggerMap`. It also holds two snapshot stacks,
  `past` and `future`, and two fetch-state flags. Module `Slice` gives every
  reducer twice:
  - as a case of the pure function `Slice.Reduce`;
  - as a method of class `Slice.WorkflowSlice`, which changes the fields step
    by step. Where the source loops, so does the method: the back-pointer
    sweeps of the two removals, and the `reduce` folds of the two loads.
    Each method is proved to end in the state `Reduce` gives.

  Module `Pairing` states the mutual-pairing invariant: action `a` names
  trigger `t` iff `t` names `a`. It proves *exactly* when each edit keeps the
  invariant. Module `History` proves the undo/redo properties.
- **The board component** (`src/components/WorkflowBoard/index.tsx`). Module
  `Board` models:
  - the trigger partition, a loop in a method;
  - the action-key order and the connection list derived from the maps;
  - the keyboard shortcuts and the fetch-state gating;
  - the selection and the add/remove dialogs, as two small classes.

Snapshots are Dafny values. A snapshot therefore never shares mutable state
with `current`, which is the guarantee the source gets from `deepCopy`.

Two behaviours that one might expect to be no-ops are modelled as the code
behaves:

- Connecting with an unknown id is not a no-op. The code
  always records a history step. Before it checks that both ids exist, it has
  already cleared the former partner of whichever entity exists
  (slice.ts:95-111). `Pairing.ConnectKeepsIff` gives the exact consequence.
- Removing an unknown id is not a no-op either. The code still
  records a history step.

## Model

| member | source | states |
|---|---|---|
| Slice.WorkflowSlice.constructor | src/rdx/workflow/slice.ts:18-27 | the slice starts with empty maps, empty `past` and `future`, and both fetch states `unset` |
| Slice.WorkflowSlice.Undo | src/rdx/workflow/slice.ts:37-43 | the fields end as `Reduce` says for undo: with a non-empty `past`, its top becomes `current` and the old `current` is pushed onto `future`; with an empty `past`, nothing changes |
| Slice.WorkflowSlice.Redo | src/rdx/workflow/slice.ts:45-51 | the mirror image of undo on `future` and `past` |
| Slice.WorkflowSlice.Record | src/rdx/workflow/slice.ts:54-55 | the start of every edit: the old `current` is pushed onto `past` and `future` becomes empty |
| Slice.WorkflowSlice.AddAction | src/rdx/workflow/slice.ts:53-57 | records history, then stores the payload under its id |
| Slice.WorkflowSlice.RemoveActionById | src/rdx/workflow/slice.ts:59-70 | records history, deletes the entry, and a loop over every trigger clears each `actionId` equal to the id; ends in the state `Reduce` gives |
| Slice.WorkflowSlice.SetActionsStart | src/rdx/workflow/slice.ts:72-74 | the action fetch state becomes `waiting`; nothing else changes |
| Slice.WorkflowSlice.SetActionsFailure | src/rdx/workflow/slice.ts:76-78 | the action fetch state becomes `failure`; nothing else changes |
| Slice.WorkflowSlice.SetActionsSuccess | src/rdx/workflow/slice.ts:80-86 | a fold loop builds the id-keyed map of the list, which replaces `actionMap`; the fetch state becomes `success`; history is untouched |
| Slice.WorkflowSlice.AddConnection | src/rdx/workflow/slice.ts:88-115 | records history, cuts the former trigger of `a` (when the pointer is truthy), then the former action of `t`, then pairs `a` and `t` only when both existed |
| Slice.WorkflowSlice.RemoveConnection | src/rdx/workflow/slice.ts:117-131 | records history and clears the pointer of whichever of `a` and `t` exists |
| Slice.WorkflowSlice.AddTrigger | src/rdx/workflow/slice.ts:133-137 | records history, then stores the payload under its id |
| Slice.WorkflowSlice.RemoveTriggerById | src/rdx/workflow/slice.ts:139-150 | records history, deletes the entry, and a loop over every action clears each `triggerId` equal to the id |
| Slice.WorkflowSlice.SetTriggersStart | src/rdx/workflow/slice.ts:152-154 | the trigger fetch state becomes `waiting` |
| Slice.WorkflowSlice.SetTriggersFailure | src/rdx/workflow/slice.ts:156-158 | the trigger fetch state becomes `failure` |
| Slice.WorkflowSlice.SetTriggersSuccess | src/rdx/workflow/slice.ts:160-166 | a fold loop builds the id-keyed map of the list, which replaces `triggerMap`; the fetch state becomes `success` |
| Slice.InitialState | src/rdx/workflow/slice.ts:18-27 | the starting state: a timeline that holds only the empty snapshot, so there is nothing to undo or redo; both fetch states are `unset` |
| Slice.Undone | src/rdx/workflow/slice.ts:37-43 | the undo step: the two stacks together keep their size; with an empty `past` nothing changes. History.UndoWalksTimeline states the rest |
| Slice.Redone | src/rdx/workflow/slice.ts:45-51 | the redo step: the two stacks together keep their size; with an empty `future` nothing changes. History.RedoWalksTimeline states the rest |
| Slice.Recorded | src/rdx/workflow/slice.ts:54-55 | the start of every edit: `next` becomes current, `future` is emptied, and the fetch states are kept |
| Slice.WithAction | src/rdx/workflow/slice.ts:56 | the map step of addAction: the action map gains the payload's id and holds the payload there; the trigger map is untouched |
| Slice.WithTrigger | src/rdx/workflow/slice.ts:136 | the map step of addTrigger: the trigger map gains the payload's id and holds the payload there; the action map is untouched |
| Slice.WithoutAction | src/rdx/workflow/slice.ts:60-69 | the map step of removeActionById: the id leaves the action map and the trigger keys are kept. Pairing.RemoveActionEffect states the pointers |
| Slice.WithoutTrigger | src/rdx/workflow/slice.ts:140-149 | the map step of removeTriggerById: the id leaves the trigger map and the action keys are kept |
| Slice.CutFormerTrigger | src/rdx/workflow/slice.ts:95-101 | the first step of addConnection: when `a`'s `triggerId` is truthy and names an existing trigger, that trigger's `actionId` becomes none; the action map and the trigger keys are unchanged; with no truthy pointer nothing changes |
| Slice.CutFormerAction | src/rdx/workflow/slice.ts:103-109 | the second step: the same for `t`'s `actionId`, the action it names, and the trigger map |
| Slice.Connect | src/rdx/workflow/slice.ts:92-114 | the map step of addConnection: the keys are kept, and when both ids exist they name each other afterwards. Pairing.ConnectEffect and ConnectKeepsIff state the rest |
| Slice.Disconnect | src/rdx/workflow/slice.ts:118-130 | the map step of removeConnection: the keys are kept, and whichever of `a` and `t` exists has no pointer afterwards |
| Slice.IndexBy | src/rdx/workflow/slice.ts:81-84 | the `reduce` of the two success reducers. It has no contract of its own; Slice.IndexByContents states its contents |
| Slice.Reduce | src/rdx/workflow/slice.ts:36-167 | the new state for each of the fourteen reducers. It has no contract of its own; the WorkflowSlice methods end in its result, and Pairing.ReduceKeepsValid, History.EditRecordsHistory and History.FetchKeepsHistory state its properties |
| Slice.IndexByContents | src/rdx/workflow/slice.ts:81-84 | the folded map holds exactly the ids of the list; every entry sits under its own id and comes from the list; each id maps to its last occurrence, so a later duplicate wins |
| Pairing.InitialStateValid | src/rdx/workflow/slice.ts:18-27 | the initial state is consistent, both maps are empty, and undo and redo leave it unchanged |
| Pairing.AddActionEffect | src/rdx/workflow/slice.ts:53-57 | after addAction(x): `actionMap[x.id] == x`, every other action is unchanged, and the trigger map is unchanged |
| Pairing.AddActionKeepsIff | src/rdx/workflow/slice.ts:56 | from a consistent state, addAction keeps the invariant iff the id is non-empty and the payload's `triggerId` equals that of the entry it replaces (none for a fresh id); overwriting a connected action breaks it |
| Pairing.AddTriggerEffect | src/rdx/workflow/slice.ts:133-137 | after addTrigger(x): `triggerMap[x.id] == x`, every other trigger is unchanged, and the action map is unchanged |
| Pairing.AddTriggerKeepsIff | src/rdx/workflow/slice.ts:136 | the mirror image of AddActionKeepsIff |
| Pairing.RemoveActionEffect | src/rdx/workflow/slice.ts:59-70 | the id is gone from `actionMap`; every trigger that named it now has no `actionId`; triggers that named another action are unchanged; other actions are unchanged |
| Pairing.RemoveActionKeeps | src/rdx/workflow/slice.ts:59-70 | removeActionById keeps the invariant for any id |
| Pairing.RemoveTriggerEffect | src/rdx/workflow/slice.ts:139-150 | the id is gone from `triggerMap`; every action that named it now has no `triggerId`; all other entries are unchanged |
| Pairing.RemoveTriggerKeeps | src/rdx/workflow/slice.ts:139-150 | removeTriggerById keeps the invariant for any id |
| Pairing.ConnectEffect | src/rdx/workflow/slice.ts:88-115 | with both ids present: afterwards `a` names `t` and `t` names `a`; the former partners of both lose their pointers; every other entry is unchanged; names and ids are unchanged |
| Pairing.CutFormerTriggerEffect | src/rdx/workflow/slice.ts:95-101 | under the invariant, the first step releases exactly the trigger that named `a`; the action map is unchanged |
| Pairing.CutFormerActionEffect | src/rdx/workflow/slice.ts:103-109 | after the first step, the second releases exactly the action other than `a` that named `t`; the trigger map is unchanged |
| Pairing.ConnectPairs | src/rdx/workflow/slice.ts:88-115 | with both ids present, the pairs afterwards are (a, t) plus the former pairs that involve neither; the invariant is kept |
| Pairing.ConnectKeepsIff | src/rdx/workflow/slice.ts:95-114 | from a consistent state, addConnection keeps the invariant iff both ids exist or neither existing entity was connected; when either id is missing, no pointer is created: every pointer afterwards existed before |
| Pairing.Reconnect | src/rdx/workflow/slice.ts:88-115 | connecting `a` to `t` and then to `t2` leaves `t` unconnected and `a`, `t2` paired with each other |
| Pairing.DisconnectEffect | src/rdx/workflow/slice.ts:117-131 | whichever of `a` and `t` exists loses its pointer; nothing else changes |
| Pairing.DisconnectKeepsIff | src/rdx/workflow/slice.ts:124-130 | from a consistent state, removeConnection keeps the invariant iff each of `a` and `t` that is connected is connected to the other |
| Pairing.LoadActionsKeeps | src/rdx/workflow/slice.ts:80-86 | loading pointer-free actions with non-empty ids keeps the invariant when no trigger names an action |
| Pairing.LoadTriggersKeeps | src/rdx/workflow/slice.ts:160-166 | the mirror image for triggers |
| Pairing.ReduceKeepsValid | src/rdx/workflow/slice.ts:36-167 | every reducer keeps the current state and all snapshots consistent, given its condition; undo, redo, removals and fetch-state changes need no condition |
| Pairing.RunKeepsValid | src/rdx/workflow/slice.ts:36-167 | the invariant holds after every command of any run whose commands meet their conditions |
| History.UndoWalksTimeline | src/rdx/workflow/slice.ts:37-43 | undo leaves the timeline (`past`, then `current`, then `future` reversed) unchanged and moves the cursor back one step, stopping at the start; the fetch states are unchanged |
| History.RedoWalksTimeline | src/rdx/workflow/slice.ts:45-51 | redo leaves the timeline unchanged and moves the cursor forward one step, stopping at the end |
| History.TimelineDetermines | src/rdx/workflow/slice.ts:10-16 | the timeline, the cursor and the fetch states determine the whole state |
| History.UndoThenRedo | src/rdx/workflow/slice.ts:37-51 | with a non-empty `past`, undo followed by redo restores `current`, `past` and `future` exactly |
| History.RedoThenUndo | src/rdx/workflow/slice.ts:37-51 | with a non-empty `future`, redo followed by undo restores the state exactly |
| History.EditRecordsHistory | src/rdx/workflow/slice.ts:53-150 | every edit, even with unknown ids, grows `past` by the old `current`, empties `future`, and keeps the fetch states; the timeline is cut at the cursor and the new state appended |
| History.UndoRevertsEdit | src/rdx/workflow/slice.ts:37-150 | undo after an edit restores the previous `current` and `past`; redo afterwards restores the edited state; redo straight after an edit changes nothing |
| History.EditAfterUndosDiscardsRedo | src/rdx/workflow/slice.ts:37-150 | an edit after any number of undos leaves nothing to redo |
| History.FetchKeepsHistory | src/rdx/workflow/slice.ts:72-166 | the start, failure and success reducers leave `past` and `future` untouched and set their own flag; a success replaces only its own map |
| History.ConnectUndoRedoScenario | src/rdx/workflow/slice.ts:37-137 | add a1, add t1, connect them: they name each other. One undo leaves both unconnected; a second undo removes t1; two redos restore the connected state |
| Board.CategorizeTriggers | src/components/WorkflowBoard/index.tsx:144-166 | the loop puts the connected trigger ids first, in key order, then the others, in key order; the result is a permutation of the keys |
| Board.TriggerKeysPartition | src/components/WorkflowBoard/index.tsx:144-166 | when the keys enumerate the trigger map, the trigger list holds every trigger exactly once, and every connected trigger comes before every unconnected one |
| Board.IsConnected | src/components/WorkflowBoard/index.tsx:147 | definition of the partition's test (its ensures spells out the predicate); what it means for the lists is proved in `Board.TriggerKeysPartition` |
| Board.IsUnconnectedAction | src/components/WorkflowBoard/index.tsx:170-171 | definition of the test for the tail of the action list (its ensures spells out the predicate); what it means for the list is proved in `Board.ActionKeysPermutation` |
| Board.PartnersOf | src/components/WorkflowBoard/index.tsx:174 | one entry per connected trigger, in order: the action that trigger names |
| Board.ActionKeys | src/components/WorkflowBoard/index.tsx:168-180 | the action list: it starts with the action named by each connected trigger, in connected-trigger order, and the entries after them are exactly the listed keys of existing actions whose `triggerId` is undefined |
| Board.PartnersThenUnconnected | src/components/WorkflowBoard/index.tsx:168-180 | under the pairing invariant, the partners of the connected triggers followed by the unconnected actions list every action exactly once |
| Board.ActionKeysPermutation | src/components/WorkflowBoard/index.tsx:168-180 | under the pairing invariant the action list holds every action exactly once, and its i-th entry is the partner of the i-th connected trigger |
| Board.PartnersPaired | src/components/WorkflowBoard/index.tsx:174 | under the invariant, the action listed for each connected trigger names that trigger back, and no action is listed twice |
| Board.ConnectedActionsArePartners | src/components/WorkflowBoard/index.tsx:174 | under the invariant, every connected action is the partner of some connected trigger |
| Board.Connections | src/components/WorkflowBoard/index.tsx:182-185 | one connection per connected trigger, in connected-trigger order, each carrying that trigger's id and the `actionId` that trigger holds |
| Board.ConnectionsArePairs | src/components/WorkflowBoard/index.tsx:182-185 | under the pairing invariant the connection list is duplicate-free, and (a, t) is in it iff `a` and `t` are paired |
| Board.ToLower | src/components/WorkflowBoard/index.tsx:258 | lowercasing keeps the length; each of A to Z becomes its lowercase letter, every other character is unchanged, and no letter A to Z remains |
| Board.KeyCommand | src/components/WorkflowBoard/index.tsx:255-272 | Ctrl+Z without Shift gives undo; Ctrl+Shift+Z or Ctrl+Y gives redo; letter case is ignored; any other key, or no Ctrl, gives no command |
| Board.ViewFor | src/components/WorkflowBoard/index.tsx:279-285 | the view is loading iff either fetch state is `waiting`; the board shows iff both are `success`; otherwise the view is "no data" |
| Board.StartupViews | src/components/WorkflowBoard/index.tsx:279-285 | after both loads start, the view is loading until both answer, whichever answers first; then it shows the board if both succeeded and "no data" if either failed |
| Board.Toggle | src/components/WorkflowBoard/index.tsx:61 | selecting the selected id clears the selection; selecting any other id selects that id |
| Board.Selection.constructor | src/components/WorkflowBoard/index.tsx:56-57 | nothing is selected at first |
| Board.Selection.ActionSelect | src/components/WorkflowBoard/index.tsx:60-62 | toggles the selected action; the selected trigger is unchanged |
| Board.Selection.TriggerSelect | src/components/WorkflowBoard/index.tsx:64-66 | toggles the selected trigger; the selected action is unchanged |
| Board.Selection.ConnectionAdd | src/components/WorkflowBoard/index.tsx:68-75 | clears both selections and dispatches addConnection with the two ids |
| Board.DialogFor | src/components/WorkflowBoard/index.tsx:300-327 | the modal is closed iff the mode is `unset`; a removal is confirmed only for the recorded id; a removal mode with no recorded id shows an empty modal |
| Board.Dialogs.constructor | src/components/WorkflowBoard/index.tsx:141-142 | no dialog is open and no id is recorded |
| Board.Dialogs.ModalClose | src/components/WorkflowBoard/index.tsx:187-189 | the mode becomes `unset`; the recorded id is kept |
| Board.Dialogs.ActionAdd | src/components/WorkflowBoard/index.tsx:191-193 | the new-action form is shown |
| Board.Dialogs.ActionRemove | src/components/WorkflowBoard/index.tsx:195-198 | the mode becomes `removingAction` and `id` is recorded; the removal of `id` is shown for confirmation |
| Board.Dialogs.ActionSave | src/components/WorkflowBoard/index.tsx:200-206 | the dialog closes and addAction with the form's action is dispatched |
| Board.Dialogs.ActionRemoveConfirm | src/components/WorkflowBoard/index.tsx:208-214 | the dialog closes; removeActionById is dispatched only if an id is recorded, and then for that id |
| Board.Dialogs.TriggerAdd | src/components/WorkflowBoard/index.tsx:216-218 | the new-trigger form is shown |
| Board.Dialogs.TriggerRemove | src/components/WorkflowBoard/index.tsx:220-223 | the mode becomes `removingTrigger` and `id` is recorded |
| Board.Dialogs.TriggerSave | src/components/WorkflowBoard/index.tsx:225-231 | the dialog closes and addTrigger is dispatched |
| Board.Dialogs.TriggerRemoveConfirm | src/components/WorkflowBoard/index.tsx:233-239 | the dialog closes; removeTriggerById is dispatched only if an id is recorded |

The datatypes `Action`, `Trigger`, `Connection` and `APICallState` in module
`Types` follow src/types.ts:1-31. An optional field `x?: Id` becomes
`Option<Id>`. The dialogs' invariant `Dialogs.Valid()` states that a removal
dialog always has a recorded id. Every `Dialogs` method keeps it, so the empty
modal can never appear.

## Left out

- Key order: a Dafny map has no key order, so the board derivations take the
  `Object.keys` order as a parameter, and the lemmas require that it lists
  each key once. The order in which a successful load or a removal would
  change that order is not modelled.
- Redux, Immer and the `deep-copy` library are left out: Dafny values replace
  draft proxies and deep copies. The model relies on one property of Immer:
  two reads of the same key give the same draft. That is why addConnection's
  second step sees the pointer its first step cleared.
- Frozen payload objects shared between the store and the caller are not
  modelled, because every entity is a value.
- Selectors (src/rdx/workflow/selectors.ts) are not modelled. They read
  `state.workflow.actionMap`, which is not the slice's shape, and the
  fetch-state selectors the board imports are not defined there. The board is
  modelled as reading the slice's `current` maps and its fetch states.
- The `version` counter and its effects (index.tsx:58, 77-79, 85-87) are not
  modelled. They only force the connection lines to be measured again.
- The rendering is not modelled: JSX, canvas and DOM geometry, event-listener
  registration (index.tsx:274-277), and the presentational components.
- `preventDefault` (index.tsx:259, 266) is not modelled separately. It is
  called exactly when `KeyCommand` returns a command.
- Board.ToLower: models `toLowerCase` only on the letters A to Z. This is
  exact for the two comparisons made, because no other string lowercases to
  "z" or "y".
- src/components/WorkflowBoard/types.ts, which holds the dialog-mode enum, is
  not part of this model. Its five values are taken from their uses.
- The new-entity forms are not modelled. They only save entities whose id is
  non-empty. The model carries that as the `x.id != ""` part of addAction's
  condition, not as a precondition.
- The container's connection handlers (index.tsx:241-253) are not modelled
  as members. They only dispatch addConnection and removeConnection, which
  are modelled as `Slice.Command` values.
- The asynchronous loading (src/App.tsx, src/API.ts) is not modelled. Only the
  reducers it dispatches are.
- Pairing.LoadActionsKeeps: gives a sufficient condition for loads to keep the
  invariant, not an exact one. This mirrors the initial data, which has no
  connections. Pairing.LoadTriggersKeeps is weaker in the same way.
- Loads do not touch the history, so an undo after a load can bring back maps
  from before the load. This is what the code does, and the model keeps it.
- The history grows without bound, as in the source.
- Ids are assumed not to be names of `Object.prototype` properties, such as
  `toString` or `__proto__`. The source keeps its maps in plain objects, and a
  lookup of such a name finds the inherited property. For example,
  addConnection with trigger id `toString` and no such trigger finds a truthy
  "trigger" at slice.ts:93. Lines 111-113 then give the action a dangling
  `triggerId`, where `Slice.Connect` makes no pair. Likewise addAction with id
  `__proto__` (slice.ts:56) creates no entry, where `Slice.WithAction` stores
  one. The forms set an entity's id to its name, so a user can reach these
  cases.
