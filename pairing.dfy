/** The mutual-pairing invariant of the workflow maps, and exactly when each
    reducer of the slice keeps it.

    The invariant: action `a` names trigger `t` iff trigger `t` names action
    `a` (so no pointer dangles and no entity is in two connections); every
    entry is stored under its own id; no id is the empty string (the editor
    only saves entities whose id is non-empty, and the connect reducer treats
    an empty pointer as no pointer). */
module Pairing {
  import opened Types
  import opened Slice

  // ---------------------------------------------------------------------
  // The invariant

  /** Action `a` exists and its `triggerId` is `t`. */
  predicate ActionPointsTo(c: Base, a: Id, t: Id) {
    a in c.actionMap && c.actionMap[a].triggerId == Some(t)
  }

  /** Trigger `t` exists and its `actionId` is `a`. */
  predicate TriggerPointsTo(c: Base, t: Id, a: Id) {
    t in c.triggerMap && c.triggerMap[t].actionId == Some(a)
  }

  /** The trigger action `a` names, `None` if it names none or is absent. */
  function ActionPointer(c: Base, a: Id): Option<Id> {
    if a in c.actionMap then c.actionMap[a].triggerId else None
  }

  /** The action trigger `t` names, `None` if it names none or is absent. */
  function TriggerPointer(c: Base, t: Id): Option<Id> {
    if t in c.triggerMap then c.triggerMap[t].actionId else None
  }

  ghost predicate Paired(c: Base) {
    forall a, t :: ActionPointsTo(c, a, t) <==> TriggerPointsTo(c, t, a)
  }

  ghost predicate WellKeyed(c: Base) {
    && (forall k :: k in c.actionMap ==> c.actionMap[k].id == k)
    && (forall k :: k in c.triggerMap ==> c.triggerMap[k].id == k)
  }

  ghost predicate NonEmptyKeys(c: Base) {
    "" !in c.actionMap && "" !in c.triggerMap
  }

  ghost predicate Consistent(c: Base) {
    WellKeyed(c) && NonEmptyKeys(c) && Paired(c)
  }

  /** `d` holds the same entities as `c`, possibly with other pointers. */
  ghost predicate SameEntities(c: Base, d: Base) {
    && c.actionMap.Keys == d.actionMap.Keys
    && c.triggerMap.Keys == d.triggerMap.Keys
    && (forall k :: k in c.actionMap ==> d.actionMap[k].(triggerId := None) == c.actionMap[k].(triggerId := None))
    && (forall k :: k in c.triggerMap ==> d.triggerMap[k].(actionId := None) == c.triggerMap[k].(actionId := None))
  }

  /** Every snapshot the history holds satisfies the invariant. */
  ghost predicate Valid(s: WorkflowState) {
    && Consistent(s.current)
    && (forall i :: 0 <= i < |s.past| ==> Consistent(s.past[i]))
    && (forall i :: 0 <= i < |s.future| ==> Consistent(s.future[i]))
  }

  lemma InitialStateValid()
    ensures Valid(InitialState())
    ensures InitialState().current.actionMap == map[] && InitialState().current.triggerMap == map[]
    ensures Reduce(InitialState(), Undo) == InitialState() && Reduce(InitialState(), Redo) == InitialState()
  {
  }

  // ---------------------------------------------------------------------
  // addAction / addTrigger

  /** addAction stores the payload under its id and changes no other entry. */
  lemma AddActionEffect(c: Base, x: Action)
    ensures WithAction(c, x).actionMap.Keys == c.actionMap.Keys + {x.id}
    ensures WithAction(c, x).actionMap[x.id] == x
    ensures forall k :: k in c.actionMap && k != x.id ==> WithAction(c, x).actionMap[k] == c.actionMap[k]
    ensures WithAction(c, x).triggerMap == c.triggerMap
  {
  }

  /** addAction keeps the invariant exactly when the id is non-empty and the
      payload's `triggerId` is what the entry it replaces had (`None` for a
      fresh id). Overwriting a connected action with an unconnected payload,
      for one, leaves its trigger pointing at it. */
  lemma AddActionKeepsIff(c: Base, x: Action)
    requires Consistent(c)
    ensures Consistent(WithAction(c, x)) <==> x.id != "" && x.triggerId == ActionPointer(c, x.id)
  {
    var d := WithAction(c, x);
    if x.id != "" && x.triggerId == ActionPointer(c, x.id) {
      assert forall a, t :: ActionPointsTo(d, a, t) <==> ActionPointsTo(c, a, t);
    }
    if Consistent(d) {
      match x.triggerId
      case Some(t) =>
        assert ActionPointsTo(d, x.id, t);
        assert TriggerPointsTo(c, t, x.id);
      case None =>
        if ActionPointer(c, x.id).Some? {
          var t := ActionPointer(c, x.id).value;
          assert ActionPointsTo(c, x.id, t);
          assert TriggerPointsTo(d, t, x.id);
        }
    }
  }

  lemma AddTriggerEffect(c: Base, x: Trigger)
    ensures WithTrigger(c, x).triggerMap.Keys == c.triggerMap.Keys + {x.id}
    ensures WithTrigger(c, x).triggerMap[x.id] == x
    ensures forall k :: k in c.triggerMap && k != x.id ==> WithTrigger(c, x).triggerMap[k] == c.triggerMap[k]
    ensures WithTrigger(c, x).actionMap == c.actionMap
  {
  }

  /** The mirror image of AddActionKeepsIff. */
  lemma AddTriggerKeepsIff(c: Base, x: Trigger)
    requires Consistent(c)
    ensures Consistent(WithTrigger(c, x)) <==> x.id != "" && x.actionId == TriggerPointer(c, x.id)
  {
    var d := WithTrigger(c, x);
    if x.id != "" && x.actionId == TriggerPointer(c, x.id) {
      assert forall t, a :: TriggerPointsTo(d, t, a) <==> TriggerPointsTo(c, t, a);
    }
    if Consistent(d) {
      match x.actionId
      case Some(a) =>
        assert TriggerPointsTo(d, x.id, a);
        assert ActionPointsTo(c, a, x.id);
      case None =>
        if TriggerPointer(c, x.id).Some? {
          var a := TriggerPointer(c, x.id).value;
          assert TriggerPointsTo(c, x.id, a);
          assert ActionPointsTo(d, a, x.id);
        }
    }
  }

  // ---------------------------------------------------------------------
  // removeActionById / removeTriggerById

  /** After removeActionById(id): the action is gone, no trigger names it,
      and every other entry (including triggers that named another action)
      is as before. */
  lemma RemoveActionEffect(c: Base, id: Id)
    ensures id !in WithoutAction(c, id).actionMap
    ensures forall k :: k in c.actionMap && k != id ==> k in WithoutAction(c, id).actionMap && WithoutAction(c, id).actionMap[k] == c.actionMap[k]
    ensures WithoutAction(c, id).triggerMap.Keys == c.triggerMap.Keys
    ensures forall t :: t in c.triggerMap ==> WithoutAction(c, id).triggerMap[t].actionId != Some(id)
    ensures forall t :: t in c.triggerMap && c.triggerMap[t].actionId == Some(id) ==> WithoutAction(c, id).triggerMap[t].actionId == None
    ensures forall t :: t in c.triggerMap && c.triggerMap[t].actionId != Some(id) ==> WithoutAction(c, id).triggerMap[t] == c.triggerMap[t]
    ensures forall t :: t in c.triggerMap ==> WithoutAction(c, id).triggerMap[t].(actionId := None) == c.triggerMap[t].(actionId := None)
  {
  }

  /** removeActionById keeps the invariant, whatever the id. */
  lemma RemoveActionKeeps(c: Base, id: Id)
    requires Consistent(c)
    ensures Consistent(WithoutAction(c, id))
  {
    var d := WithoutAction(c, id);
    forall a, t ensures ActionPointsTo(d, a, t) <==> TriggerPointsTo(d, t, a) {
      assert ActionPointsTo(d, a, t) <==> a != id && ActionPointsTo(c, a, t);
      assert TriggerPointsTo(d, t, a) <==> a != id && TriggerPointsTo(c, t, a);
    }
  }

  lemma RemoveTriggerEffect(c: Base, id: Id)
    ensures id !in WithoutTrigger(c, id).triggerMap
    ensures forall k :: k in c.triggerMap && k != id ==> k in WithoutTrigger(c, id).triggerMap && WithoutTrigger(c, id).triggerMap[k] == c.triggerMap[k]
    ensures WithoutTrigger(c, id).actionMap.Keys == c.actionMap.Keys
    ensures forall a :: a in c.actionMap ==> WithoutTrigger(c, id).actionMap[a].triggerId != Some(id)
    ensures forall a :: a in c.actionMap && c.actionMap[a].triggerId == Some(id) ==> WithoutTrigger(c, id).actionMap[a].triggerId == None
    ensures forall a :: a in c.actionMap && c.actionMap[a].triggerId != Some(id) ==> WithoutTrigger(c, id).actionMap[a] == c.actionMap[a]
    ensures forall a :: a in c.actionMap ==> WithoutTrigger(c, id).actionMap[a].(triggerId := None) == c.actionMap[a].(triggerId := None)
  {
  }

  lemma RemoveTriggerKeeps(c: Base, id: Id)
    requires Consistent(c)
    ensures Consistent(WithoutTrigger(c, id))
  {
    var d := WithoutTrigger(c, id);
    forall a, t ensures ActionPointsTo(d, a, t) <==> TriggerPointsTo(d, t, a) {
      assert ActionPointsTo(d, a, t) <==> t != id && ActionPointsTo(c, a, t);
      assert TriggerPointsTo(d, t, a) <==> t != id && TriggerPointsTo(c, t, a);
    }
  }

  // ---------------------------------------------------------------------
  // addConnection

  /** With both entities present, addConnection points `a` and `t` at each
      other and releases exactly the entities that named one of them: the
      former trigger of `a` and the former action of `t`. Nothing else
      changes. */
  lemma ConnectEffect(c: Base, a: Id, t: Id)
    requires Consistent(c) && a in c.actionMap && t in c.triggerMap
    ensures SameEntities(c, Connect(c, a, t))
    ensures Connect(c, a, t).actionMap[a].triggerId == Some(t)
    ensures Connect(c, a, t).triggerMap[t].actionId == Some(a)
    ensures forall x :: x in c.actionMap && x != a ==> Connect(c, a, t).actionMap[x] == ReleaseTrigger(c.actionMap[x], t)
    ensures forall y :: y in c.triggerMap && y != t ==> Connect(c, a, t).triggerMap[y] == ReleaseAction(c.triggerMap[y], a)
  {
    CutFormerTriggerEffect(c, a);
    CutFormerActionEffect(c, a, t);
  }

  /** The first step of addConnection releases exactly the trigger that
      pointed at `a`, if any. */
  lemma CutFormerTriggerEffect(c: Base, a: Id)
    requires Consistent(c) && a in c.actionMap
    ensures CutFormerTrigger(c, a).actionMap == c.actionMap
    ensures CutFormerTrigger(c, a).triggerMap.Keys == c.triggerMap.Keys
    ensures forall y :: y in c.triggerMap ==> CutFormerTrigger(c, a).triggerMap[y] == ReleaseAction(c.triggerMap[y], a)
  {
    if c.actionMap[a].triggerId.Some? {
      var t0 := c.actionMap[a].triggerId.value;
      assert ActionPointsTo(c, a, t0);
      forall y | y in c.triggerMap ensures c.triggerMap[y].actionId == Some(a) <==> y == t0 {
        assert TriggerPointsTo(c, y, a) <==> ActionPointsTo(c, a, y);
      }
    } else {
      forall y | y in c.triggerMap ensures c.triggerMap[y].actionId != Some(a) {
        assert !ActionPointsTo(c, a, y);
      }
    }
  }

  /** The second step, after the first, releases exactly the action other
      than `a` that pointed at `t`, if any. */
  lemma CutFormerActionEffect(c: Base, a: Id, t: Id)
    requires Consistent(c) && a in c.actionMap && t in c.triggerMap
    requires CutFormerTrigger(c, a).actionMap == c.actionMap
    requires forall y :: y in c.triggerMap ==> CutFormerTrigger(c, a).triggerMap[y] == ReleaseAction(c.triggerMap[y], a)
    ensures CutFormerAction(CutFormerTrigger(c, a), t).triggerMap == CutFormerTrigger(c, a).triggerMap
    ensures CutFormerAction(CutFormerTrigger(c, a), t).actionMap.Keys == c.actionMap.Keys
    ensures forall x :: x in c.actionMap && x != a ==>
              CutFormerAction(CutFormerTrigger(c, a), t).actionMap[x] == ReleaseTrigger(c.actionMap[x], t)
    ensures CutFormerAction(CutFormerTrigger(c, a), t).actionMap[a].(triggerId := None) == c.actionMap[a].(triggerId := None)
  {
    var c1 := CutFormerTrigger(c, a);
    if c1.triggerMap[t].actionId.Some? {
      var a0 := c1.triggerMap[t].actionId.value;
      assert TriggerPointsTo(c, t, a0);
      assert a0 in c.actionMap;
      forall x | x in c.actionMap ensures c.actionMap[x].triggerId == Some(t) <==> x == a0 {
        assert TriggerPointsTo(c, t, x) <==> ActionPointsTo(c, x, t);
      }
    } else {
      forall x | x in c.actionMap && x != a ensures c.actionMap[x].triggerId != Some(t) {
        assert !TriggerPointsTo(c, t, x);
      }
    }
  }

  /** With both entities present and the invariant holding, the pairs after
      addConnection are (a, t) and the former pairs that involve neither. */
  lemma ConnectPairs(c: Base, a: Id, t: Id)
    requires Consistent(c) && a in c.actionMap && t in c.triggerMap
    ensures forall x, y :: ActionPointsTo(Connect(c, a, t), x, y) <==>
              (x == a && y == t) || (ActionPointsTo(c, x, y) && x != a && y != t)
    ensures forall x, y :: TriggerPointsTo(Connect(c, a, t), y, x) <==>
              (x == a && y == t) || (TriggerPointsTo(c, y, x) && x != a && y != t)
    ensures Consistent(Connect(c, a, t))
  {
    ConnectEffect(c, a, t);
    var d := Connect(c, a, t);
    forall x, y ensures ActionPointsTo(d, x, y) <==> (x == a && y == t) || (ActionPointsTo(c, x, y) && x != a && y != t) {
    }
    forall x, y ensures TriggerPointsTo(d, y, x) <==> (x == a && y == t) || (TriggerPointsTo(c, y, x) && x != a && y != t) {
    }
  }

  /** Exactly when addConnection keeps the invariant: when both entities
      exist, or when neither existing one was connected. Otherwise the
      former partner has already been released although no new pair is made,
      leaving a one-sided pointer. */
  lemma ConnectKeepsIff(c: Base, a: Id, t: Id)
    requires Consistent(c)
    ensures Consistent(Connect(c, a, t)) <==>
              (a in c.actionMap && t in c.triggerMap) || (ActionPointer(c, a) == None && TriggerPointer(c, t) == None)
    ensures !(a in c.actionMap && t in c.triggerMap) ==>
              (forall x, y :: ActionPointsTo(Connect(c, a, t), x, y) ==> ActionPointsTo(c, x, y)) &&
              (forall y, x :: TriggerPointsTo(Connect(c, a, t), y, x) ==> TriggerPointsTo(c, y, x))
  {
    var d := Connect(c, a, t);
    if a in c.actionMap && t in c.triggerMap {
      ConnectPairs(c, a, t);
    } else if ActionPointer(c, a) == None && TriggerPointer(c, t) == None {
      assert d == c;
    } else if ActionPointer(c, a).Some? {
      var t0 := ActionPointer(c, a).value;
      assert ActionPointsTo(c, a, t0) && TriggerPointsTo(c, t0, a);
      assert t !in c.triggerMap;
      assert ActionPointsTo(d, a, t0) && !TriggerPointsTo(d, t0, a);
    } else {
      var a0 := TriggerPointer(c, t).value;
      assert TriggerPointsTo(c, t, a0) && ActionPointsTo(c, a0, t);
      assert a !in c.actionMap;
      assert TriggerPointsTo(d, t, a0) && !ActionPointsTo(d, a0, t);
    }
  }

  /** Connecting `a` to `t` and then to `t2` leaves `t` unconnected and `a`
      paired with `t2`. */
  lemma Reconnect(c: Base, a: Id, t: Id, t2: Id)
    requires Consistent(c) && a in c.actionMap && t in c.triggerMap && t2 in c.triggerMap && t2 != t
    ensures ActionPointsTo(Connect(Connect(c, a, t), a, t2), a, t2)
    ensures TriggerPointsTo(Connect(Connect(c, a, t), a, t2), t2, a)
    ensures Connect(Connect(c, a, t), a, t2).triggerMap[t].actionId == None
  {
    ConnectPairs(c, a, t);
    var d := Connect(c, a, t);
    ConnectPairs(d, a, t2);
    ConnectEffect(d, a, t2);
  }

  // ---------------------------------------------------------------------
  // removeConnection

  /** removeConnection clears the pointer of whichever of `a` and `t` exists
      and changes nothing else. */
  lemma DisconnectEffect(c: Base, a: Id, t: Id)
    ensures SameEntities(c, Disconnect(c, a, t))
    ensures ActionPointer(Disconnect(c, a, t), a) == None && TriggerPointer(Disconnect(c, a, t), t) == None
    ensures forall x :: x in c.actionMap && x != a ==> Disconnect(c, a, t).actionMap[x] == c.actionMap[x]
    ensures forall y :: y in c.triggerMap && y != t ==> Disconnect(c, a, t).triggerMap[y] == c.triggerMap[y]
  {
  }

  /** Exactly when removeConnection keeps the invariant: when `a` and `t`
      were connected to each other or each of them (if present) was
      unconnected. Disconnecting a mismatched pair leaves the two former
      partners pointing at entities that no longer point back. */
  lemma DisconnectKeepsIff(c: Base, a: Id, t: Id)
    requires Consistent(c)
    ensures Consistent(Disconnect(c, a, t)) <==>
              (ActionPointer(c, a).Some? ==> ActionPointer(c, a) == Some(t)) &&
              (TriggerPointer(c, t).Some? ==> TriggerPointer(c, t) == Some(a))
  {
    var d := Disconnect(c, a, t);
    if (ActionPointer(c, a).Some? ==> ActionPointer(c, a) == Some(t)) &&
       (TriggerPointer(c, t).Some? ==> TriggerPointer(c, t) == Some(a)) {
      forall x, y ensures ActionPointsTo(d, x, y) <==> TriggerPointsTo(d, y, x) {
        assert ActionPointsTo(d, x, y) <==> x != a && ActionPointsTo(c, x, y);
        assert TriggerPointsTo(d, y, x) <==> y != t && TriggerPointsTo(c, y, x);
      }
    } else if ActionPointer(c, a).Some? && ActionPointer(c, a) != Some(t) {
      var t0 := ActionPointer(c, a).value;
      assert ActionPointsTo(c, a, t0) && TriggerPointsTo(c, t0, a);
      assert TriggerPointsTo(d, t0, a) && !ActionPointsTo(d, a, t0);
    } else {
      var a0 := TriggerPointer(c, t).value;
      assert TriggerPointsTo(c, t, a0) && ActionPointsTo(c, a0, t);
      assert ActionPointsTo(d, a0, t) && !TriggerPointsTo(d, t, a0);
    }
  }

  // ---------------------------------------------------------------------
  // setActionsSuccess / setTriggersSuccess

  /** Loading actions keeps the invariant when the loaded actions have
      non-empty ids and no pointers, and no trigger names an action. */
  lemma LoadActionsKeeps(c: Base, list: seq<Action>)
    requires Consistent(c)
    requires forall i :: 0 <= i < |list| ==> list[i].id != "" && list[i].triggerId == None
    requires forall t :: t in c.triggerMap ==> c.triggerMap[t].actionId == None
    ensures Consistent(c.(actionMap := IndexBy(list, ActionKey)))
  {
    IndexByContents(list, ActionKey);
    var d := c.(actionMap := IndexBy(list, ActionKey));
    forall a, t ensures !ActionPointsTo(d, a, t) && !TriggerPointsTo(d, t, a) {
      if a in d.actionMap {
        assert d.actionMap[a] in list;
      }
    }
  }

  lemma LoadTriggersKeeps(c: Base, list: seq<Trigger>)
    requires Consistent(c)
    requires forall i :: 0 <= i < |list| ==> list[i].id != "" && list[i].actionId == None
    requires forall a :: a in c.actionMap ==> c.actionMap[a].triggerId == None
    ensures Consistent(c.(triggerMap := IndexBy(list, TriggerKey)))
  {
    IndexByContents(list, TriggerKey);
    var d := c.(triggerMap := IndexBy(list, TriggerKey));
    forall a, t ensures !ActionPointsTo(d, a, t) && !TriggerPointsTo(d, t, a) {
      if t in d.triggerMap {
        assert d.triggerMap[t] in list;
      }
    }
  }

  // ---------------------------------------------------------------------
  // Whole runs

  /** The condition under which a command keeps the invariant: the exact
      condition for the edits (the *KeepsIff lemmas), a sufficient one for
      the loads. */
  ghost predicate Safe(c: Base, cmd: Command) {
    match cmd
    case AddAction(x) => x.id != "" && x.triggerId == ActionPointer(c, x.id)
    case AddTrigger(x) => x.id != "" && x.actionId == TriggerPointer(c, x.id)
    case AddConnection(conn) =>
      (conn.actionId in c.actionMap && conn.triggerId in c.triggerMap) ||
      (ActionPointer(c, conn.actionId) == None && TriggerPointer(c, conn.triggerId) == None)
    case RemoveConnection(conn) =>
      (ActionPointer(c, conn.actionId).Some? ==> ActionPointer(c, conn.actionId) == Some(conn.triggerId)) &&
      (TriggerPointer(c, conn.triggerId).Some? ==> TriggerPointer(c, conn.triggerId) == Some(conn.actionId))
    case SetActionsSuccess(list) =>
      (forall i :: 0 <= i < |list| ==> list[i].id != "" && list[i].triggerId == None) &&
      (forall t :: t in c.triggerMap ==> c.triggerMap[t].actionId == None)
    case SetTriggersSuccess(list) =>
      (forall i :: 0 <= i < |list| ==> list[i].id != "" && list[i].actionId == None) &&
      (forall a :: a in c.actionMap ==> c.actionMap[a].triggerId == None)
    case _ => true
  }

  /** Every reducer keeps every snapshot consistent, given its condition;
      undo, redo and removals need none. */
  lemma ReduceKeepsValid(s: WorkflowState, cmd: Command)
    requires Valid(s) && Safe(s.current, cmd)
    ensures Valid(Reduce(s, cmd))
  {
    var r := Reduce(s, cmd);
    match cmd
    case Undo =>
      if |s.past| > 0 {
        assert forall i :: 0 <= i < |r.past| ==> r.past[i] == s.past[i];
        assert forall i :: 0 <= i < |r.future| ==> r.future[i] == (s.future + [s.current])[i];
      }
    case Redo =>
      if |s.future| > 0 {
        assert forall i :: 0 <= i < |r.future| ==> r.future[i] == s.future[i];
        assert forall i :: 0 <= i < |r.past| ==> r.past[i] == (s.past + [s.current])[i];
      }
    case AddAction(x) => AddActionKeepsIff(s.current, x);
    case AddTrigger(x) => AddTriggerKeepsIff(s.current, x);
    case RemoveActionById(id) => RemoveActionKeeps(s.current, id);
    case RemoveTriggerById(id) => RemoveTriggerKeeps(s.current, id);
    case AddConnection(conn) => ConnectKeepsIff(s.current, conn.actionId, conn.triggerId);
    case RemoveConnection(conn) => DisconnectKeepsIff(s.current, conn.actionId, conn.triggerId);
    case SetActionsSuccess(list) => LoadActionsKeeps(s.current, list);
    case SetTriggersSuccess(list) => LoadTriggersKeeps(s.current, list);
    case SetActionsStart =>
    case SetActionsFailure =>
    case SetTriggersStart =>
    case SetTriggersFailure =>
  }

  /** Every command of the run is safe in the state it is dispatched in. */
  ghost predicate SafeRun(s: WorkflowState, cmds: seq<Command>)
    decreases |cmds|
  {
    cmds == [] || (Safe(s.current, cmds[0]) && SafeRun(Reduce(s, cmds[0]), cmds[1..]))
  }

  /** The invariant holds after every command of a safe run. */
  lemma {:induction false} RunKeepsValid(s: WorkflowState, cmds: seq<Command>)
    requires Valid(s) && SafeRun(s, cmds)
    ensures Valid(Run(s, cmds))
    decreases |cmds|
  {
    if cmds != [] {
      ReduceKeepsValid(s, cmds[0]);
      RunKeepsValid(Reduce(s, cmds[0]), cmds[1..]);
    }
  }
}
