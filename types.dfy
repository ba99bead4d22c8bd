/** The entities of the workflow editor: actions, triggers, the connection
    payload and the load-lifecycle flag. */
module Types {

  /** An optional field (`field?: Id` in the editor's records). */
  datatype Option<+T> = None | Some(value: T)

  /** Entity identifiers are strings chosen by the user. */
  type Id = string

  /** An action; `triggerId` points at the trigger it is paired with. */
  datatype Action = Action(id: Id, name: string, triggerId: Option<Id>)

  /** A trigger; `actionId` points at the action it is paired with. */
  datatype Trigger = Trigger(id: Id, name: string, actionId: Option<Id>)

  /** The payload of the connect and disconnect commands. */
  datatype Connection = Connection(actionId: Id, triggerId: Id)

  /** The fetch state of one of the two initial loads. */
  datatype APICallState = Unset | Waiting | Success | Failure

  function ActionKey(a: Action): Id { a.id }

  function TriggerKey(t: Trigger): Id { t.id }

  /** JavaScript truthiness of an optional id: `undefined` and the empty
      string are both falsy. */
  predicate Truthy(p: Option<Id>) {
    p.Some? && p.value != ""
  }
}
