/** The logic of the workflow board component: how the lists and connections
    it draws are derived from the two maps, how key presses become undo and
    redo, how the selection and the add/remove dialogs change, and which view
    the fetch states select.

    JavaScript objects enumerate their keys in an order maps do not have, so
    each derivation takes that order as a parameter (`keys`, the result of
    `Object.keys`), and the lemmas ask that it enumerate the map. */
module Board {
  import opened Types
  import opened Seqs
  import Slice
  import opened Pairing

  /** `keys` lists every key of `m` exactly once. */
  ghost predicate Enumerates<V>(keys: seq<Id>, m: map<Id, V>) {
    Distinct(keys) && (forall k :: k in keys <==> k in m)
  }

  // ---------------------------------------------------------------------
  // Lists and connections

  /** A trigger counts as connected when its `actionId` is defined. */
  function IsConnected(triggerMap: map<Id, Trigger>): (r: Id -> bool)
    ensures forall k :: r(k) <==> k in triggerMap && triggerMap[k].actionId != None
  {
    k => k in triggerMap && triggerMap[k].actionId.Some?
  }

  /** An action counts as unconnected when its `triggerId` is undefined. */
  function IsUnconnectedAction(actionMap: map<Id, Action>): (r: Id -> bool)
    ensures forall k :: r(k) <==> k in actionMap && actionMap[k].triggerId == None
  {
    k => k in actionMap && actionMap[k].triggerId.None?
  }

  /** The trigger partition: one pass over the keys pushing each onto the
      connected or the not-connected list. The triggers shown are the
      connected ones followed by the others, each group in key order; the
      result is a rearrangement of the keys. */
  method CategorizeTriggers(triggerMap: map<Id, Trigger>, keys: seq<Id>)
    returns (connectedTriggerKeys: seq<Id>, triggerKeys: seq<Id>)
    requires forall k :: k in keys ==> k in triggerMap
    ensures connectedTriggerKeys == Filter(keys, IsConnected(triggerMap))
    ensures triggerKeys == connectedTriggerKeys + Filter(keys, Not(IsConnected(triggerMap)))
    ensures multiset(triggerKeys) == multiset(keys)
  {
    ghost var p := IsConnected(triggerMap);
    var connected: seq<Id> := [];
    var notConnected: seq<Id> := [];
    for i := 0 to |keys|
      invariant connected == Filter(keys[..i], p)
      invariant notConnected == Filter(keys[..i], Not(p))
    {
      var currentId := keys[i];
      assert keys[..i + 1] == keys[..i] + [currentId];
      FilterSnocSplit(keys[..i], currentId, p);
      assert p(currentId) == triggerMap[currentId].actionId.Some?;
      if triggerMap[currentId].actionId.Some? {
        connected := connected + [currentId];
      } else {
        notConnected := notConnected + [currentId];
      }
    }
    assert keys[..|keys|] == keys;
    assert multiset(connected + notConnected) == multiset(keys) by {
      FilterPartition(keys, p);
    }
    connectedTriggerKeys := connected;
    triggerKeys := connected + notConnected;
  }

  /** With the keys enumerating the map, the trigger list shows every trigger
      exactly once, connected ones first. */
  lemma TriggerKeysPartition(triggerMap: map<Id, Trigger>, keys: seq<Id>)
    requires Enumerates(keys, triggerMap)
    ensures var connected := Filter(keys, IsConnected(triggerMap));
            var triggerKeys := connected + Filter(keys, Not(IsConnected(triggerMap)));
            && Enumerates(triggerKeys, triggerMap)
            && (forall i :: 0 <= i < |connected| ==> triggerMap[triggerKeys[i]].actionId.Some?)
            && (forall i :: |connected| <= i < |triggerKeys| ==> triggerMap[triggerKeys[i]].actionId.None?)
  {
    var p := IsConnected(triggerMap);
    var connected, rest := Filter(keys, p), Filter(keys, Not(p));
    FilterDistinct(keys, p);
    FilterDistinct(keys, Not(p));
    FilterMembers(keys, p);
    FilterMembers(keys, Not(p));
    DistinctConcat(connected, rest);
    forall i | |connected| <= i < |connected + rest|
      ensures triggerMap[(connected + rest)[i]].actionId.None?
    {
      assert (connected + rest)[i] == rest[i - |connected|];
      assert (connected + rest)[i] in rest;
    }
    forall i | 0 <= i < |connected| ensures triggerMap[(connected + rest)[i]].actionId.Some? {
      assert (connected + rest)[i] == connected[i];
      assert connected[i] in connected;
    }
  }

  /** The actions named by the given connected triggers, in the same order. */
  function PartnersOf(triggerMap: map<Id, Trigger>, connected: seq<Id>): (r: seq<Id>)
    requires forall i :: 0 <= i < |connected| ==> connected[i] in triggerMap && triggerMap[connected[i]].actionId.Some?
    ensures |r| == |connected|
    ensures forall i :: 0 <= i < |r| ==> triggerMap[connected[i]].actionId == Some(r[i])
  {
    seq(|connected|, i requires 0 <= i < |connected| => triggerMap[connected[i]].actionId.value)
  }

  /** The action list: the actions of the connected triggers in trigger
      order, then the actions whose `triggerId` is undefined in key order. */
  function ActionKeys(actionMap: map<Id, Action>, triggerMap: map<Id, Trigger>,
                      actionOrder: seq<Id>, triggerOrder: seq<Id>): (r: seq<Id>)
    ensures var connected := Filter(triggerOrder, IsConnected(triggerMap));
            && |connected| <= |r|
            && (forall i :: 0 <= i < |connected| ==> triggerMap[connected[i]].actionId == Some(r[i]))
            && (forall i :: |connected| <= i < |r| ==> r[i] in actionMap && actionMap[r[i]].triggerId == None)
            && (forall k :: k in r[|connected|..] <==> k in actionOrder && k in actionMap && actionMap[k].triggerId == None)
  {
    FilterMembers(actionOrder, IsUnconnectedAction(actionMap));
    PartnersOf(triggerMap, Filter(triggerOrder, IsConnected(triggerMap)))
      + Filter(actionOrder, IsUnconnectedAction(actionMap))
  }

  /** Under the pairing invariant each connected trigger's partner names it
      back, and distinct triggers have distinct partners. */
  lemma PartnersPaired(actionMap: map<Id, Action>, triggerMap: map<Id, Trigger>, connected: seq<Id>)
    requires Paired(Slice.Base(actionMap, triggerMap)) && Distinct(connected)
    requires forall i :: 0 <= i < |connected| ==> connected[i] in triggerMap && triggerMap[connected[i]].actionId.Some?
    ensures forall i :: 0 <= i < |connected| ==>
              ActionPointsTo(Slice.Base(actionMap, triggerMap), PartnersOf(triggerMap, connected)[i], connected[i])
    ensures Distinct(PartnersOf(triggerMap, connected))
  {
    var c := Slice.Base(actionMap, triggerMap);
    var partners := PartnersOf(triggerMap, connected);
    forall i | 0 <= i < |connected| ensures ActionPointsTo(c, partners[i], connected[i]) {
      assert TriggerPointsTo(c, connected[i], partners[i]);
    }
    forall i, j | 0 <= i < j < |partners| ensures partners[i] != partners[j] {
      assert ActionPointsTo(c, partners[i], connected[i]) && ActionPointsTo(c, partners[j], connected[j]);
    }
  }

  /** Under the pairing invariant every connected action is the partner of
      some connected trigger. */
  lemma ConnectedActionsArePartners(actionMap: map<Id, Action>, triggerMap: map<Id, Trigger>, triggerOrder: seq<Id>, x: Id)
    requires Paired(Slice.Base(actionMap, triggerMap)) && Enumerates(triggerOrder, triggerMap)
    requires x in actionMap && actionMap[x].triggerId.Some?
    ensures x in PartnersOf(triggerMap, Filter(triggerOrder, IsConnected(triggerMap)))
  {
    var c := Slice.Base(actionMap, triggerMap);
    var connected := Filter(triggerOrder, IsConnected(triggerMap));
    var t := actionMap[x].triggerId.value;
    assert ActionPointsTo(c, x, t) && TriggerPointsTo(c, t, x);
    FilterMembers(triggerOrder, IsConnected(triggerMap));
    assert t in connected;
    var i :| 0 <= i < |connected| && connected[i] == t;
    assert PartnersOf(triggerMap, connected)[i] == x;
  }

  /** Under the pairing invariant the action list shows every action exactly
      once, and the i-th connected trigger's action at position i. */
  lemma ActionKeysPermutation(actionMap: map<Id, Action>, triggerMap: map<Id, Trigger>,
                              actionOrder: seq<Id>, triggerOrder: seq<Id>)
    requires Paired(Slice.Base(actionMap, triggerMap))
    requires Enumerates(actionOrder, actionMap) && Enumerates(triggerOrder, triggerMap)
    ensures Enumerates(ActionKeys(actionMap, triggerMap, actionOrder, triggerOrder), actionMap)
    ensures var connected := Filter(triggerOrder, IsConnected(triggerMap));
            forall i :: 0 <= i < |connected| ==>
              ActionPointsTo(Slice.Base(actionMap, triggerMap), ActionKeys(actionMap, triggerMap, actionOrder, triggerOrder)[i], connected[i])
  {
    var connected := Filter(triggerOrder, IsConnected(triggerMap));
    var partners := PartnersOf(triggerMap, connected);
    var unconnected := Filter(actionOrder, IsUnconnectedAction(actionMap));
    assert ActionKeys(actionMap, triggerMap, actionOrder, triggerOrder) == partners + unconnected;
    FilterDistinct(triggerOrder, IsConnected(triggerMap));
    PartnersPaired(actionMap, triggerMap, connected);
    PartnersThenUnconnected(actionMap, triggerMap, actionOrder, triggerOrder);
  }

  /** The two parts of the action list together enumerate the action map. */
  lemma PartnersThenUnconnected(actionMap: map<Id, Action>, triggerMap: map<Id, Trigger>,
                                actionOrder: seq<Id>, triggerOrder: seq<Id>)
    requires Paired(Slice.Base(actionMap, triggerMap))
    requires Enumerates(actionOrder, actionMap) && Enumerates(triggerOrder, triggerMap)
    ensures Enumerates(PartnersOf(triggerMap, Filter(triggerOrder, IsConnected(triggerMap)))
                         + Filter(actionOrder, IsUnconnectedAction(actionMap)), actionMap)
  {
    var c := Slice.Base(actionMap, triggerMap);
    var connected := Filter(triggerOrder, IsConnected(triggerMap));
    var partners := PartnersOf(triggerMap, connected);
    var unconnected := Filter(actionOrder, IsUnconnectedAction(actionMap));
    FilterDistinct(triggerOrder, IsConnected(triggerMap));
    FilterDistinct(actionOrder, IsUnconnectedAction(actionMap));
    PartnersPaired(actionMap, triggerMap, connected);
    FilterMembers(actionOrder, IsUnconnectedAction(actionMap));
    forall x | x in partners ensures x in actionMap && actionMap[x].triggerId.Some? {
      var i :| 0 <= i < |partners| && partners[i] == x;
      assert ActionPointsTo(c, partners[i], connected[i]);
    }
    DistinctConcat(partners, unconnected);
    forall x | x in actionMap ensures x in partners + unconnected {
      if actionMap[x].triggerId.Some? {
        ConnectedActionsArePartners(actionMap, triggerMap, triggerOrder, x);
      } else {
        assert x in unconnected;
      }
    }
  }

  /** One connection per connected trigger, in connected-trigger order. */
  function Connections(triggerMap: map<Id, Trigger>, triggerOrder: seq<Id>): (r: seq<Connection>)
    ensures |r| == |Filter(triggerOrder, IsConnected(triggerMap))|
    ensures forall i :: 0 <= i < |r| ==> r[i].triggerId == Filter(triggerOrder, IsConnected(triggerMap))[i]
    ensures forall i :: 0 <= i < |r| ==> r[i].triggerId in triggerMap && triggerMap[r[i].triggerId].actionId == Some(r[i].actionId)
  {
    var connected := Filter(triggerOrder, IsConnected(triggerMap));
    seq(|connected|, i requires 0 <= i < |connected| =>
      Connection(triggerMap[connected[i]].actionId.value, connected[i]))
  }

  /** Under the pairing invariant the drawn connections are exactly the
      paired (action, trigger) couples, each once. */
  lemma ConnectionsArePairs(actionMap: map<Id, Action>, triggerMap: map<Id, Trigger>, triggerOrder: seq<Id>)
    requires Paired(Slice.Base(actionMap, triggerMap)) && Enumerates(triggerOrder, triggerMap)
    ensures Distinct(Connections(triggerMap, triggerOrder))
    ensures forall a, t :: Connection(a, t) in Connections(triggerMap, triggerOrder) <==>
              ActionPointsTo(Slice.Base(actionMap, triggerMap), a, t)
  {
    var c := Slice.Base(actionMap, triggerMap);
    var connected := Filter(triggerOrder, IsConnected(triggerMap));
    var r := Connections(triggerMap, triggerOrder);
    FilterDistinct(triggerOrder, IsConnected(triggerMap));
    FilterMembers(triggerOrder, IsConnected(triggerMap));
    forall i, j | 0 <= i < j < |r| ensures r[i] != r[j] {
      assert r[i].triggerId == connected[i] && r[j].triggerId == connected[j];
    }
    forall a, t | Connection(a, t) in r ensures ActionPointsTo(c, a, t) {
      var i :| 0 <= i < |r| && r[i] == Connection(a, t);
      assert TriggerPointsTo(c, t, a);
    }
    forall a, t | ActionPointsTo(c, a, t) ensures Connection(a, t) in r {
      assert TriggerPointsTo(c, t, a);
      assert t in connected;
      var i :| 0 <= i < |connected| && connected[i] == t;
      assert r[i] == Connection(a, t);
    }
  }

  // ---------------------------------------------------------------------
  // Keyboard

  /** `toLowerCase` on the letters A to Z. No other character lowercases to
      `z` or `y`, so this is exact for the comparisons below. */
  function ToLower(s: string): (r: string)
    ensures |r| == |s|
    ensures forall i :: 0 <= i < |s| ==> !('A' <= r[i] <= 'Z')
    ensures forall i :: 0 <= i < |s| && !('A' <= s[i] <= 'Z') ==> r[i] == s[i]
    ensures forall i :: 0 <= i < |s| && 'A' <= s[i] <= 'Z' ==> r[i] as int - s[i] as int == 'a' as int - 'A' as int
  {
    seq(|s|, i requires 0 <= i < |s| => if 'A' <= s[i] <= 'Z' then (s[i] as int + 32) as char else s[i])
  }

  /** The command a key press dispatches: Ctrl+Z undoes, Ctrl+Shift+Z and
      Ctrl+Y (with or without Shift) redo, the letter's case does not matter,
      and nothing else dispatches (nor has its default prevented). */
  function KeyCommand(ctrlKey: bool, shiftKey: bool, key: string): (r: Option<Slice.Command>)
    ensures r == Some(Slice.Undo) <==> ctrlKey && !shiftKey && (key == "z" || key == "Z")
    ensures r == Some(Slice.Redo) <==> ctrlKey && ((shiftKey && (key == "z" || key == "Z")) || key == "y" || key == "Y")
    ensures r == None <==> !ctrlKey || (key != "z" && key != "Z" && key != "y" && key != "Y")
  {
    assert ToLower("z") == "z" && ToLower("Z") == "z" && ToLower("y") == "y" && ToLower("Y") == "y";
    assert ToLower(key) == "z" ==> key == "z" || key == "Z" by {
      if ToLower(key) == "z" { assert ToLower(key)[0] == 'z'; }
    }
    assert ToLower(key) == "y" ==> key == "y" || key == "Y" by {
      if ToLower(key) == "y" { assert ToLower(key)[0] == 'y'; }
    }
    if ctrlKey then
      if ToLower(key) == "z" then
        if shiftKey then Some(Slice.Redo) else Some(Slice.Undo)
      else if ToLower(key) == "y" then Some(Slice.Redo)
      else None
    else None
  }

  // ---------------------------------------------------------------------
  // Fetch-state gating

  datatype View = Loading | NoData | ShowBoard

  /** Loading while either load is waiting; otherwise the board only when
      both loads succeeded. */
  function ViewFor(actionFetchState: APICallState, triggerFetchState: APICallState): (v: View)
    ensures v == Loading <==> actionFetchState == APICallState.Waiting || triggerFetchState == APICallState.Waiting
    ensures v == ShowBoard <==> actionFetchState == APICallState.Success && triggerFetchState == APICallState.Success
  {
    if actionFetchState == APICallState.Waiting || triggerFetchState == APICallState.Waiting then Loading
    else if actionFetchState != APICallState.Success || triggerFetchState != APICallState.Success then NoData
    else ShowBoard
  }

  /** The start-up sequence of the app: both loads start, then finish, in
      either order. The view stays loading until both have answered, shows
      the board when both succeeded, and shows "no data" when either failed. */
  lemma StartupViews(s: Slice.WorkflowState, actions: seq<Action>, triggers: seq<Trigger>,
                     actionsFail: bool, triggersFail: bool, actionsFirst: bool)
    ensures var started := Slice.Reduce(Slice.Reduce(s, Slice.SetActionsStart), Slice.SetTriggersStart);
            var actionsReply := if actionsFail then Slice.SetActionsFailure else Slice.SetActionsSuccess(actions);
            var triggersReply := if triggersFail then Slice.SetTriggersFailure else Slice.SetTriggersSuccess(triggers);
            var firstDone := Slice.Reduce(started, if actionsFirst then actionsReply else triggersReply);
            var bothDone := Slice.Reduce(firstDone, if actionsFirst then triggersReply else actionsReply);
            && ViewFor(started.actionFetchState, started.triggerFetchState) == Loading
            && ViewFor(firstDone.actionFetchState, firstDone.triggerFetchState) == Loading
            && ViewFor(bothDone.actionFetchState, bothDone.triggerFetchState) == (if actionsFail || triggersFail then NoData else ShowBoard)
  {
    var started := Slice.Reduce(Slice.Reduce(s, Slice.SetActionsStart), Slice.SetTriggersStart);
    assert started.actionFetchState == APICallState.Waiting && started.triggerFetchState == APICallState.Waiting;
    var actionsReply := if actionsFail then Slice.SetActionsFailure else Slice.SetActionsSuccess(actions);
    var triggersReply := if triggersFail then Slice.SetTriggersFailure else Slice.SetTriggersSuccess(triggers);
    var actionsAnswer := if actionsFail then APICallState.Failure else APICallState.Success;
    var triggersAnswer := if triggersFail then APICallState.Failure else APICallState.Success;
    forall r: Slice.WorkflowState
      ensures Slice.Reduce(r, actionsReply).actionFetchState == actionsAnswer
      ensures Slice.Reduce(r, actionsReply).triggerFetchState == r.triggerFetchState
      ensures Slice.Reduce(r, triggersReply).triggerFetchState == triggersAnswer
      ensures Slice.Reduce(r, triggersReply).actionFetchState == r.actionFetchState
    {
    }
  }

  // ---------------------------------------------------------------------
  // Selection

  /** The selection updater: choosing the selected id clears the selection,
      choosing any other id selects it. */
  function Toggle(selected: Option<Id>, id: Id): (r: Option<Id>)
    ensures r == None <==> selected == Some(id)
    ensures r != None ==> r == Some(id)
  {
    if selected != Some(id) then Some(id) else None
  }

  /** The selected action and trigger of the board. */
  class Selection {
    var selectedActionId: Option<Id>
    var selectedTriggerId: Option<Id>

    constructor ()
      ensures selectedActionId == None && selectedTriggerId == None
    {
      selectedActionId, selectedTriggerId := None, None;
    }

    method ActionSelect(id: Id)
      modifies this
      ensures selectedActionId == Toggle(old(selectedActionId), id)
      ensures selectedTriggerId == old(selectedTriggerId)
    {
      selectedActionId := Toggle(selectedActionId, id);
    }

    method TriggerSelect(id: Id)
      modifies this
      ensures selectedTriggerId == Toggle(old(selectedTriggerId), id)
      ensures selectedActionId == old(selectedActionId)
    {
      selectedTriggerId := Toggle(selectedTriggerId, id);
    }

    /** Adding a connection clears both selections, then dispatches. */
    method ConnectionAdd(actionId: Id, triggerId: Id) returns (dispatched: Slice.Command)
      modifies this
      ensures selectedActionId == None && selectedTriggerId == None
      ensures dispatched == Slice.AddConnection(Connection(actionId, triggerId))
    {
      selectedActionId := None;
      selectedTriggerId := None;
      dispatched := Slice.AddConnection(Connection(actionId, triggerId));
    }
  }

  // ---------------------------------------------------------------------
  // Add/remove dialogs

  /** Which dialog is open, if any. */
  datatype Mode = Unset | AddingAction | AddingTrigger | RemovingAction | RemovingTrigger

  /** What the modal shows. */
  datatype Dialog =
    | Closed
    | NewActionForm
    | NewTriggerForm
    | ConfirmActionRemoval(id: Id)
    | ConfirmTriggerRemoval(id: Id)
    | EmptyModal

  /** The dialog rendered for a mode and a recorded id: a removal is only
      confirmed when an id is recorded, otherwise the modal is empty. */
  function DialogFor(mode: Mode, beingRemoved: Option<Id>): (d: Dialog)
    ensures d == Closed <==> mode == Mode.Unset
    ensures d == EmptyModal <==> (mode == RemovingAction || mode == RemovingTrigger) && beingRemoved == None
    ensures d.ConfirmActionRemoval? ==> mode == RemovingAction && beingRemoved == Some(d.id)
    ensures d.ConfirmTriggerRemoval? ==> mode == RemovingTrigger && beingRemoved == Some(d.id)
  {
    match mode
    case Unset => Closed
    case AddingAction => NewActionForm
    case AddingTrigger => NewTriggerForm
    case RemovingAction => if beingRemoved.Some? then ConfirmActionRemoval(beingRemoved.value) else EmptyModal
    case RemovingTrigger => if beingRemoved.Some? then ConfirmTriggerRemoval(beingRemoved.value) else EmptyModal
  }

  /** The dialog state of the board. */
  class Dialogs {
    var workflowState: Mode
    var idOfEntityBeingRemoved: Option<Id>

    /** A removal dialog always has an id to remove, so the modal is never
        open and empty. */
    ghost predicate Valid()
      reads this
    {
      (workflowState == RemovingAction || workflowState == RemovingTrigger) ==> idOfEntityBeingRemoved.Some?
    }

    ghost function Shown(): Dialog
      reads this
    {
      DialogFor(workflowState, idOfEntityBeingRemoved)
    }

    constructor ()
      ensures Valid() && workflowState == Mode.Unset && idOfEntityBeingRemoved == None
    {
      workflowState, idOfEntityBeingRemoved := Mode.Unset, None;
    }

    method ModalClose()
      requires Valid()
      modifies this
      ensures Valid() && workflowState == Mode.Unset && idOfEntityBeingRemoved == old(idOfEntityBeingRemoved)
    {
      workflowState := Mode.Unset;
    }

    method ActionAdd()
      requires Valid()
      modifies this
      ensures Valid() && Shown() == NewActionForm && idOfEntityBeingRemoved == old(idOfEntityBeingRemoved)
    {
      workflowState := AddingAction;
    }

    method TriggerAdd()
      requires Valid()
      modifies this
      ensures Valid() && Shown() == NewTriggerForm && idOfEntityBeingRemoved == old(idOfEntityBeingRemoved)
    {
      workflowState := AddingTrigger;
    }

    method ActionRemove(id: Id)
      requires Valid()
      modifies this
      ensures Valid() && workflowState == RemovingAction && idOfEntityBeingRemoved == Some(id)
      ensures Shown() == ConfirmActionRemoval(id)
    {
      workflowState := RemovingAction;
      idOfEntityBeingRemoved := Some(id);
    }

    method TriggerRemove(id: Id)
      requires Valid()
      modifies this
      ensures Valid() && workflowState == RemovingTrigger && idOfEntityBeingRemoved == Some(id)
      ensures Shown() == ConfirmTriggerRemoval(id)
    {
      workflowState := RemovingTrigger;
      idOfEntityBeingRemoved := Some(id);
    }

    /** Saving the new-action form closes the dialog and dispatches addAction. */
    method ActionSave(action: Action) returns (dispatched: Slice.Command)
      requires Valid()
      modifies this
      ensures Valid() && Shown() == Closed && idOfEntityBeingRemoved == old(idOfEntityBeingRemoved)
      ensures dispatched == Slice.AddAction(action)
    {
      workflowState := Mode.Unset;
      dispatched := Slice.AddAction(action);
    }

    method TriggerSave(trigger: Trigger) returns (dispatched: Slice.Command)
      requires Valid()
      modifies this
      ensures Valid() && Shown() == Closed && idOfEntityBeingRemoved == old(idOfEntityBeingRemoved)
      ensures dispatched == Slice.AddTrigger(trigger)
    {
      workflowState := Mode.Unset;
      dispatched := Slice.AddTrigger(trigger);
    }

    /** Confirming closes the dialog and removes the recorded action, if an
        id was recorded. */
    method ActionRemoveConfirm() returns (dispatched: Option<Slice.Command>)
      requires Valid()
      modifies this
      ensures Valid() && Shown() == Closed && idOfEntityBeingRemoved == old(idOfEntityBeingRemoved)
      ensures dispatched == if old(idOfEntityBeingRemoved).Some?
                            then Some(Slice.RemoveActionById(old(idOfEntityBeingRemoved).value)) else None
    {
      workflowState := Mode.Unset;
      if idOfEntityBeingRemoved.Some? {
        dispatched := Some(Slice.RemoveActionById(idOfEntityBeingRemoved.value));
      } else {
        dispatched := None;
      }
    }

    method TriggerRemoveConfirm() returns (dispatched: Option<Slice.Command>)
      requires Valid()
      modifies this
      ensures Valid() && Shown() == Closed && idOfEntityBeingRemoved == old(idOfEntityBeingRemoved)
      ensures dispatched == if old(idOfEntityBeingRemoved).Some?
                            then Some(Slice.RemoveTriggerById(old(idOfEntityBeingRemoved).value)) else None
    {
      workflowState := Mode.Unset;
      if idOfEntityBeingRemoved.Some? {
        dispatched := Some(Slice.RemoveTriggerById(idOfEntityBeingRemoved.value));
      } else {
        dispatched := None;
      }
    }
  }
}
