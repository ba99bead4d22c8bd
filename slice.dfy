/** The workflow slice: the two entity maps, the undo/redo history that
    snapshots them, and the two fetch-state flags.

    Each reducer of the slice appears twice: as a case of the pure function
    `Reduce`, which is what the lemmas (here and in module Pairing) reason
    about, and as a method of class `WorkflowSlice`, which performs the same
    transition step by step on mutable fields, with the loops of the source,
    and is proved to end in the state `Reduce` describes. Snapshots are Dafny
    values, so a snapshot can never share mutable state with `current`. */
module Slice {
  import opened Types
  import opened Seqs

  /** The undoable part of the state: both entity maps. */
  datatype Base = Base(actionMap: map<Id, Action>, triggerMap: map<Id, Trigger>)

  /** The whole state of the slice. `past` and `future` are stacks whose top
      is their last element. */
  datatype WorkflowState = WorkflowState(
    current: Base,
    past: seq<Base>,
    future: seq<Base>,
    actionFetchState: APICallState,
    triggerFetchState: APICallState)

  /** The commands (action creators) the slice accepts, one per reducer. */
  datatype Command =
    | Undo
    | Redo
    | AddAction(action: Action)
    | RemoveActionById(id: Id)
    | SetActionsStart
    | SetActionsFailure
    | SetActionsSuccess(actions: seq<Action>)
    | AddConnection(connection: Connection)
    | RemoveConnection(connection: Connection)
    | AddTrigger(trigger: Trigger)
    | RemoveTriggerById(id: Id)
    | SetTriggersStart
    | SetTriggersFailure
    | SetTriggersSuccess(triggers: seq<Trigger>)
  {
    /** The six reducers that edit the maps and record history. */
    predicate IsEdit() {
      AddAction? || RemoveActionById? || AddConnection? || RemoveConnection? || AddTrigger? || RemoveTriggerById?
    }
  }

  /** The state the slice starts in: nothing loaded, nothing to undo or redo. */
  function InitialState(): (r: WorkflowState)
    ensures Timeline(r) == [Base(map[], map[])]
    ensures r.actionFetchState == APICallState.Unset && r.triggerFetchState == APICallState.Unset
  {
    WorkflowState(Base(map[], map[]), [], [], APICallState.Unset, APICallState.Unset)
  }

  // ---------------------------------------------------------------------
  // History

  /** undo: the top of `past` becomes current, the old current goes on `future`. */
  function Undone(s: WorkflowState): (r: WorkflowState)
    ensures |r.past| + |r.future| == |s.past| + |s.future|
    ensures |s.past| == 0 ==> r == s
  {
    if |s.past| > 0 then
      s.(future := s.future + [s.current], current := s.past[|s.past| - 1], past := s.past[..|s.past| - 1])
    else s
  }

  /** redo: the mirror image of undo. */
  function Redone(s: WorkflowState): (r: WorkflowState)
    ensures |r.past| + |r.future| == |s.past| + |s.future|
    ensures |s.future| == 0 ==> r == s
  {
    if |s.future| > 0 then
      s.(past := s.past + [s.current], current := s.future[|s.future| - 1], future := s.future[..|s.future| - 1])
    else s
  }

  /** The prologue of every edit: snapshot `current` onto `past`, drop the
      redo branch, and make `next` current. */
  function Recorded(s: WorkflowState, next: Base): (r: WorkflowState)
    ensures r.current == next && r.future == []
    ensures r.actionFetchState == s.actionFetchState && r.triggerFetchState == s.triggerFetchState
  {
    s.(past := s.past + [s.current], future := [], current := next)
  }

  /** Every snapshot the history can reach, oldest first: what undo and redo
      walk along. The cursor (the index of `current`) is `|past|`. */
  function Timeline(s: WorkflowState): (r: seq<Base>)
    ensures |r| == |s.past| + 1 + |s.future| && r[|s.past|] == s.current
  {
    s.past + [s.current] + Reversed(s.future)
  }

  // ---------------------------------------------------------------------
  // Edits of the maps

  /** addAction: insert the payload under its id, overwriting any entry. */
  function WithAction(c: Base, x: Action): (r: Base)
    ensures r.actionMap.Keys == c.actionMap.Keys + {x.id} && r.actionMap[x.id] == x
    ensures r.triggerMap == c.triggerMap
  {
    c.(actionMap := c.actionMap[x.id := x])
  }

  /** addTrigger: insert the payload under its id, overwriting any entry. */
  function WithTrigger(c: Base, x: Trigger): (r: Base)
    ensures r.triggerMap.Keys == c.triggerMap.Keys + {x.id} && r.triggerMap[x.id] == x
    ensures r.actionMap == c.actionMap
  {
    c.(triggerMap := c.triggerMap[x.id := x])
  }

  /** A trigger that pointed at action `id` no longer does. */
  function ReleaseAction(t: Trigger, id: Id): Trigger {
    if t.actionId == Some(id) then t.(actionId := None) else t
  }

  /** An action that pointed at trigger `id` no longer does. */
  function ReleaseTrigger(a: Action, id: Id): Action {
    if a.triggerId == Some(id) then a.(triggerId := None) else a
  }

  /** removeActionById: delete the entry, and every trigger pointing at it
      forgets it. */
  function WithoutAction(c: Base, id: Id): (r: Base)
    ensures r.actionMap.Keys == c.actionMap.Keys - {id}
    ensures r.triggerMap.Keys == c.triggerMap.Keys
  {
    Base(c.actionMap - {id}, map k | k in c.triggerMap :: ReleaseAction(c.triggerMap[k], id))
  }

  /** removeTriggerById: delete the entry, and every action pointing at it
      forgets it. */
  function WithoutTrigger(c: Base, id: Id): (r: Base)
    ensures r.triggerMap.Keys == c.triggerMap.Keys - {id}
    ensures r.actionMap.Keys == c.actionMap.Keys
  {
    Base(map k | k in c.actionMap :: ReleaseTrigger(c.actionMap[k], id), c.triggerMap - {id})
  }

  /** First step of addConnection: if action `a` exists and its `triggerId`
      is truthy, the trigger it names (if it exists) loses its `actionId`. */
  function CutFormerTrigger(c: Base, a: Id): (r: Base)
    ensures r.actionMap == c.actionMap && r.triggerMap.Keys == c.triggerMap.Keys
    ensures a in c.actionMap && Truthy(c.actionMap[a].triggerId) && c.actionMap[a].triggerId.value in c.triggerMap ==>
              r.triggerMap[c.actionMap[a].triggerId.value].actionId == None
    ensures !(a in c.actionMap && Truthy(c.actionMap[a].triggerId)) ==> r == c
  {
    if a in c.actionMap && Truthy(c.actionMap[a].triggerId) && c.actionMap[a].triggerId.value in c.triggerMap then
      var former := c.actionMap[a].triggerId.value;
      c.(triggerMap := c.triggerMap[former := c.triggerMap[former].(actionId := None)])
    else c
  }

  /** Second step of addConnection: if trigger `t` exists and its `actionId`
      is (now) truthy, the action it names (if it exists) loses its
      `triggerId`. */
  function CutFormerAction(c: Base, t: Id): (r: Base)
    ensures r.triggerMap == c.triggerMap && r.actionMap.Keys == c.actionMap.Keys
    ensures t in c.triggerMap && Truthy(c.triggerMap[t].actionId) && c.triggerMap[t].actionId.value in c.actionMap ==>
              r.actionMap[c.triggerMap[t].actionId.value].triggerId == None
    ensures !(t in c.triggerMap && Truthy(c.triggerMap[t].actionId)) ==> r == c
  {
    if t in c.triggerMap && Truthy(c.triggerMap[t].actionId) && c.triggerMap[t].actionId.value in c.actionMap then
      var former := c.triggerMap[t].actionId.value;
      c.(actionMap := c.actionMap[former := c.actionMap[former].(triggerId := None)])
    else c
  }

  /** addConnection: cut both former partners, then, only when both entities
      exist, point them at each other. */
  function Connect(c: Base, a: Id, t: Id): (r: Base)
    ensures r.actionMap.Keys == c.actionMap.Keys && r.triggerMap.Keys == c.triggerMap.Keys
    ensures a in c.actionMap && t in c.triggerMap ==> r.actionMap[a].triggerId == Some(t) && r.triggerMap[t].actionId == Some(a)
  {
    var cut := CutFormerAction(CutFormerTrigger(c, a), t);
    if a in c.actionMap && t in c.triggerMap then
      Base(cut.actionMap[a := cut.actionMap[a].(triggerId := Some(t))],
           cut.triggerMap[t := cut.triggerMap[t].(actionId := Some(a))])
    else cut
  }

  /** removeConnection: whichever of `a` and `t` exists loses its pointer. */
  function Disconnect(c: Base, a: Id, t: Id): (r: Base)
    ensures r.actionMap.Keys == c.actionMap.Keys && r.triggerMap.Keys == c.triggerMap.Keys
    ensures a in c.actionMap ==> r.actionMap[a].triggerId == None
    ensures t in c.triggerMap ==> r.triggerMap[t].actionId == None
  {
    Base(if a in c.actionMap then c.actionMap[a := c.actionMap[a].(triggerId := None)] else c.actionMap,
         if t in c.triggerMap then c.triggerMap[t := c.triggerMap[t].(actionId := None)] else c.triggerMap)
  }

  /** The `reduce` of the *Success reducers: each element stored under its
      key, folding from the first element to the last. */
  function IndexBy<T>(list: seq<T>, key: T -> Id): map<Id, T>
  {
    if list == [] then map[]
    else IndexBy(list[..|list| - 1], key)[key(list[|list| - 1]) := list[|list| - 1]]
  }

  /** The index holds exactly the keys of the list's elements, every entry is
      stored under its own key, and a later element overwrites an earlier one
      of the same key: each key maps to its last occurrence. */
  lemma {:induction false} IndexByContents<T(!new)>(list: seq<T>, key: T -> Id)
    ensures forall i :: 0 <= i < |list| ==> key(list[i]) in IndexBy(list, key)
    ensures forall k :: k in IndexBy(list, key) ==> key(IndexBy(list, key)[k]) == k && IndexBy(list, key)[k] in list
    ensures forall i :: 0 <= i < |list| && (forall j :: i < j < |list| ==> key(list[j]) != key(list[i])) ==>
              IndexBy(list, key)[key(list[i])] == list[i]
  {
    if list != [] {
      var init, last := list[..|list| - 1], list[|list| - 1];
      assert list == init + [last];
      IndexByContents(init, key);
    }
  }

  /** Folding one more element into the index. */
  lemma IndexBySnoc<T(!new)>(list: seq<T>, x: T, key: T -> Id)
    ensures IndexBy(list + [x], key) == IndexBy(list, key)[key(x) := x]
  {
    assert (list + [x])[..|list|] == list;
  }

  // ---------------------------------------------------------------------
  // The reducer

  /** The new state the slice's reducer produces for `cmd`. */
  function Reduce(s: WorkflowState, cmd: Command): WorkflowState
  {
    match cmd
    case Undo => Undone(s)
    case Redo => Redone(s)
    case AddAction(x) => Recorded(s, WithAction(s.current, x))
    case RemoveActionById(id) => Recorded(s, WithoutAction(s.current, id))
    case SetActionsStart => s.(actionFetchState := APICallState.Waiting)
    case SetActionsFailure => s.(actionFetchState := APICallState.Failure)
    case SetActionsSuccess(list) =>
      s.(current := s.current.(actionMap := IndexBy(list, ActionKey)), actionFetchState := APICallState.Success)
    case AddConnection(conn) => Recorded(s, Connect(s.current, conn.actionId, conn.triggerId))
    case RemoveConnection(conn) => Recorded(s, Disconnect(s.current, conn.actionId, conn.triggerId))
    case AddTrigger(x) => Recorded(s, WithTrigger(s.current, x))
    case RemoveTriggerById(id) => Recorded(s, WithoutTrigger(s.current, id))
    case SetTriggersStart => s.(triggerFetchState := APICallState.Waiting)
    case SetTriggersFailure => s.(triggerFetchState := APICallState.Failure)
    case SetTriggersSuccess(list) =>
      s.(current := s.current.(triggerMap := IndexBy(list, TriggerKey)), triggerFetchState := APICallState.Success)
  }

  /** Dispatching a sequence of commands, first to last. */
  function Run(s: WorkflowState, cmds: seq<Command>): WorkflowState
    decreases |cmds|
  {
    if cmds == [] then s else Run(Reduce(s, cmds[0]), cmds[1..])
  }

  // ---------------------------------------------------------------------
  // The slice as mutable state

  /** The draft state the reducers mutate in place. */
  class WorkflowSlice {
    var current: Base
    var past: seq<Base>
    var future: seq<Base>
    var actionFetchState: APICallState
    var triggerFetchState: APICallState

    /** The value of the whole state. */
    function State(): WorkflowState
      reads this
    {
      WorkflowState(current, past, future, actionFetchState, triggerFetchState)
    }

    constructor ()
      ensures State() == InitialState()
    {
      current := Base(map[], map[]);
      past, future := [], [];
      actionFetchState, triggerFetchState := APICallState.Unset, APICallState.Unset;
    }

    method Undo()
      modifies this
      ensures State() == Reduce(old(State()), Command.Undo)
    {
      if |past| > 0 {
        future := future + [current];
        current := past[|past| - 1];
        past := past[..|past| - 1];
      }
    }

    method Redo()
      modifies this
      ensures State() == Reduce(old(State()), Command.Redo)
    {
      if |future| > 0 {
        past := past + [current];
        current := future[|future| - 1];
        future := future[..|future| - 1];
      }
    }

    /** The first two statements of every edit reducer. */
    method Record()
      modifies this`past, this`future
      ensures past == old(past) + [current] && future == []
    {
      past := past + [current];
      future := [];
    }

    method AddAction(x: Action)
      modifies this
      ensures State() == Reduce(old(State()), Command.AddAction(x))
    {
      Record();
      current := current.(actionMap := current.actionMap[x.id := x]);
    }

    method AddTrigger(x: Trigger)
      modifies this
      ensures State() == Reduce(old(State()), Command.AddTrigger(x))
    {
      Record();
      current := current.(triggerMap := current.triggerMap[x.id := x]);
    }

    method RemoveActionById(id: Id)
      modifies this
      ensures State() == Reduce(old(State()), Command.RemoveActionById(id))
    {
      Record();
      current := current.(actionMap := current.actionMap - {id});
      ghost var before := current.triggerMap;
      // every trigger is visited once; each visit touches its own entry only
      var pending := current.triggerMap.Keys;
      while pending != {}
        modifies this`current
        invariant pending <= before.Keys
        invariant current.actionMap == old(current.actionMap) - {id}
        invariant current.triggerMap.Keys == before.Keys
        invariant forall k :: k in before ==>
                    current.triggerMap[k] == if k in pending then before[k] else ReleaseAction(before[k], id)
        decreases pending
      {
        var k :| k in pending;
        if current.triggerMap[k].actionId == Some(id) {
          current := current.(triggerMap := current.triggerMap[k := current.triggerMap[k].(actionId := None)]);
        }
        pending := pending - {k};
      }
      assert current.triggerMap == WithoutAction(old(current), id).triggerMap;
    }

    method RemoveTriggerById(id: Id)
      modifies this
      ensures State() == Reduce(old(State()), Command.RemoveTriggerById(id))
    {
      Record();
      current := current.(triggerMap := current.triggerMap - {id});
      ghost var before := current.actionMap;
      var pending := current.actionMap.Keys;
      while pending != {}
        modifies this`current
        invariant pending <= before.Keys
        invariant current.triggerMap == old(current.triggerMap) - {id}
        invariant current.actionMap.Keys == before.Keys
        invariant forall k :: k in before ==>
                    current.actionMap[k] == if k in pending then before[k] else ReleaseTrigger(before[k], id)
        decreases pending
      {
        var k :| k in pending;
        if current.actionMap[k].triggerId == Some(id) {
          current := current.(actionMap := current.actionMap[k := current.actionMap[k].(triggerId := None)]);
        }
        pending := pending - {k};
      }
      assert current.actionMap == WithoutTrigger(old(current), id).actionMap;
    }

    method AddConnection(conn: Connection)
      modifies this
      ensures State() == Reduce(old(State()), Command.AddConnection(conn))
    {
      Record();
      var a, t := conn.actionId, conn.triggerId;
      var actionExists, triggerExists := a in current.actionMap, t in current.triggerMap;
      if actionExists && Truthy(current.actionMap[a].triggerId) {
        var former := current.actionMap[a].triggerId.value;
        if former in current.triggerMap {
          current := current.(triggerMap := current.triggerMap[former := current.triggerMap[former].(actionId := None)]);
        }
      }
      assert current == CutFormerTrigger(old(current), a);
      if triggerExists && Truthy(current.triggerMap[t].actionId) {
        var former := current.triggerMap[t].actionId.value;
        if former in current.actionMap {
          current := current.(actionMap := current.actionMap[former := current.actionMap[former].(triggerId := None)]);
        }
      }
      if actionExists && triggerExists {
        current := current.(actionMap := current.actionMap[a := current.actionMap[a].(triggerId := Some(t))]);
        current := current.(triggerMap := current.triggerMap[t := current.triggerMap[t].(actionId := Some(a))]);
      }
    }

    method RemoveConnection(conn: Connection)
      modifies this
      ensures State() == Reduce(old(State()), Command.RemoveConnection(conn))
    {
      Record();
      var a, t := conn.actionId, conn.triggerId;
      if a in current.actionMap {
        current := current.(actionMap := current.actionMap[a := current.actionMap[a].(triggerId := None)]);
      }
      if t in current.triggerMap {
        current := current.(triggerMap := current.triggerMap[t := current.triggerMap[t].(actionId := None)]);
      }
    }

    method SetActionsStart()
      modifies this
      ensures State() == Reduce(old(State()), Command.SetActionsStart)
    {
      actionFetchState := APICallState.Waiting;
    }

    method SetActionsFailure()
      modifies this
      ensures State() == Reduce(old(State()), Command.SetActionsFailure)
    {
      actionFetchState := APICallState.Failure;
    }

    method SetActionsSuccess(actions: seq<Action>)
      modifies this
      ensures State() == Reduce(old(State()), Command.SetActionsSuccess(actions))
    {
      var mapped: map<Id, Action> := map[];
      for i := 0 to |actions|
        modifies {}
        invariant mapped == IndexBy(actions[..i], ActionKey)
      {
        assert actions[..i + 1] == actions[..i] + [actions[i]];
        IndexBySnoc(actions[..i], actions[i], ActionKey);
        mapped := mapped[actions[i].id := actions[i]];
      }
      assert actions[..|actions|] == actions;
      current := current.(actionMap := mapped);
      actionFetchState := APICallState.Success;
    }

    method SetTriggersStart()
      modifies this
      ensures State() == Reduce(old(State()), Command.SetTriggersStart)
    {
      triggerFetchState := APICallState.Waiting;
    }

    method SetTriggersFailure()
      modifies this
      ensures State() == Reduce(old(State()), Command.SetTriggersFailure)
    {
      triggerFetchState := APICallState.Failure;
    }

    method SetTriggersSuccess(triggers: seq<Trigger>)
      modifies this
      ensures State() == Reduce(old(State()), Command.SetTriggersSuccess(triggers))
    {
      var mapped: map<Id, Trigger> := map[];
      for i := 0 to |triggers|
        modifies {}
        invariant mapped == IndexBy(triggers[..i], TriggerKey)
      {
        assert triggers[..i + 1] == triggers[..i] + [triggers[i]];
        IndexBySnoc(triggers[..i], triggers[i], TriggerKey);
        mapped := mapped[triggers[i].id := triggers[i]];
      }
      assert triggers[..|triggers|] == triggers;
      current := current.(triggerMap := mapped);
      triggerFetchState := APICallState.Success;
    }
  }
}
