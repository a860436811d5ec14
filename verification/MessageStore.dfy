/** The two message tables and the statements of internal/adapter/repository/message_repo.go. */
module MessageStore {
  import opened Basics
  import opened Messages
  import opened Reactions

  datatype Tables = Tables(messages: map<RowKey, Columns>, messagesById: map<Id, RowKey>)

  /** The columns a row has that only a partial UPDATE ever wrote. */
  const NO_COLUMNS := Columns("", "", "", [], "", "", "", 0, "", 0, 0, "", "", "", "", "", [], false, false)

  datatype Statement =
    | InsertRow(key: RowKey, columns: Columns)           // IF NOT EXISTS
    | InsertLookup(id: Id, key: RowKey)
    | UpdateRow(key: RowKey, columns: Columns)           // every column; creates an absent row
    | UpdateReactions(key: RowKey, reactions: seq<Reaction>)

  function Execute(s: Statement, t: Tables): Tables {
    match s
    case InsertRow(k, c) => if k in t.messages then t else t.(messages := t.messages[k := c])
    case InsertLookup(id, k) => t.(messagesById := t.messagesById[id := k])
    case UpdateRow(k, c) => t.(messages := t.messages[k := c])
    case UpdateReactions(k, rs) =>
      t.(messages := t.messages[k := (if k in t.messages then t.messages[k] else NO_COLUMNS).(reactions := rs)])
  }

  /** The tables after a new message was sent: its row, and after that its lookup entry. A row that is
      there already is left alone and ends the call. */
  function AfterSend(key: RowKey, columns: Columns, row: Fate, lookup: Fate, t: Tables): Tables {
    if row == Refused || key in t.messages then t
    else
      var t1 := Execute(InsertRow(key, columns), t);
      if row == TimedOut || lookup == Refused then t1 else Execute(InsertLookup(key.id, key), t1)
  }

  /** FindByID resolves the key through the lookup table and reads the row. */
  predicate Findable(t: Tables, id: Id) {
    id in t.messagesById && t.messagesById[id].(id := id) in t.messages
  }

  function Read(t: Tables, id: Id): MessageData
    requires Findable(t, id)
  {
    var k := t.messagesById[id].(id := id);
    Build(k, t.messages[k])
  }

  /** The error of a lookup by id whose two reads met these fates, if it ends in one. */
  function LookupError(t: Tables, id: Id, lookup: Fate, row: Fate): (error: Option<Error>)
    ensures error.None? <==> lookup == Done && row == Done && Findable(t, id)
  {
    if lookup != Done then Some(StoreFailure)
    else if id !in t.messagesById then Some(NotFound)
    else if row != Done then Some(StoreFailure)
    else if !Findable(t, id) then Some(NotFound) else None
  }

  /** The answer to an addition: the reads come first, then the limits, then the write if there is one. */
  function AddError(t: Tables, id: Id, emoji: string, user: Id, lookup: Fate, row: Fate, write: Fate)
    : Option<Error>
  {
    var missing := LookupError(t, id, lookup, row);
    if missing.Some? then missing
    else match AddTo(Read(t, id).reactions, emoji, user).0
      case LimitReached => Some(ReactionLimitReached)
      case AlreadyThere => None
      case Added => if write == Done then None else Some(StoreFailure)
  }

  /** The answer to a removal; one that finds nothing to remove succeeds. */
  function RemoveError(t: Tables, id: Id, emoji: string, user: Id, lookup: Fate, row: Fate, write: Fate)
    : Option<Error>
  {
    var missing := LookupError(t, id, lookup, row);
    if missing.Some? then missing
    else if !RemoveFrom(Read(t, id).reactions, emoji, user).0 || write == Done then None else Some(StoreFailure)
  }

  /** Every lookup entry leads to a row with that id. */
  ghost predicate LookupsOk(t: Tables) {
    forall id :: id in t.messagesById ==> t.messagesById[id].id == id && t.messagesById[id] in t.messages
  }
}
