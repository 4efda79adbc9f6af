/** The whitelist middleware in front of every bot handler. A message from a
    user reaches the handler only when the users table marks that user as
    an administrator, or when the user is not in the table yet and the
    configured administrator ids list them, in which case a row is created
    first. Everyone else is told their id and turned away. */
module Auth {
  import opened Strings
  import Config

  /** The sender of a Telegram message. `fullName` is "" when the account shows no name. */
  datatype TelegramUser = TelegramUser(id: int, username: Option<string>, fullName: string)

  /** An incoming update: a message (with or without a sender) or any other kind of event. */
  datatype Event = Message(fromUser: Option<TelegramUser>) | OtherUpdate

  /** A row of the users table. */
  datatype DbUser = DbUser(telegramId: int, username: Option<string>, fullName: string, isAdmin: bool)

  /** What the middleware does to the outside world, in order. */
  datatype Effect = CreateUser(row: DbUser) | CallHandler | Answer(text: string)

  /** What `__call__` returns: the handler's result, None, or the exception of an unreadable id list. */
  datatype Outcome = Handled | Dropped | Raised(error: Config.AdminIdsError)

  /** The five steps of the whitelist, as the decision they reach. */
  datatype Decision = Pass | Ignore | Allow | Register | Deny | Fail(error: Config.AdminIdsError)

  /** The reply to a user who is turned away. */
  function DenyText(telegramId: int): string {
    "Доступ запрещён. Ваш ID: " + IntToString(telegramId) + "\nОбратитесь к администратору для получения доступа."
  }

  /** Whether the configured list names the id, or the error reading the list. */
  function Listed(adminIds: string, telegramId: int): Config.Result<bool> {
    match Config.AdminIdsList(adminIds)
    case Ok(ids) => Config.Ok(telegramId in ids)
    case Err(e) => Config.Err(e)
  }

  /** For a user without a row, the decision follows the configured list the middleware reads. */
  lemma DecideNewcomer(users: map<int, DbUser>, adminIds: string, user: TelegramUser, ids: Config.Result<seq<int>>)
    requires user.id !in users && ids == Config.AdminIdsList(adminIds)
    ensures Decide(users, adminIds, Message(Some(user))) ==
      if ids.Err? then Fail(ids.error) else if user.id in ids.value then Register else Deny
  {
  }

  /** What each branch for a user without a row returns, leaves in the table and does. */
  lemma NewcomerSteps(users: map<int, DbUser>, user: TelegramUser, ids: Config.Result<seq<int>>, d: Decision)
    requires d == if ids.Err? then Fail(ids.error) else if user.id in ids.value then Register else Deny
    ensures ids.Err? ==> (
      && OutcomeOf(d) == Raised(ids.error)
      && UsersAfter(users, Message(Some(user)), d) == users
      && EffectsOf(Message(Some(user)), d) == [])
    ensures ids.Ok? && user.id in ids.value ==> (
      && OutcomeOf(d) == Handled
      && UsersAfter(users, Message(Some(user)), d) == users[user.id := NewAdmin(user)]
      && EffectsOf(Message(Some(user)), d) == [CreateUser(NewAdmin(user)), CallHandler])
    ensures ids.Ok? && user.id !in ids.value ==> (
      && OutcomeOf(d) == Dropped
      && UsersAfter(users, Message(Some(user)), d) == users
      && EffectsOf(Message(Some(user)), d) == [Answer(DenyText(user.id))])
  {
  }

  /** The decision for an event, given the users table and the configured administrator ids. */
  function Decide(users: map<int, DbUser>, adminIds: string, event: Event): (d: Decision)
    ensures d == Pass <==> event.OtherUpdate?
    ensures d == Ignore <==> event.Message? && event.fromUser.None?
    ensures d == Allow <==> (event.Message? && event.fromUser.Some?
      && event.fromUser.value.id in users && users[event.fromUser.value.id].isAdmin)
    ensures d == Register <==> (event.Message? && event.fromUser.Some?
      && event.fromUser.value.id !in users && Listed(adminIds, event.fromUser.value.id) == Config.Ok(true))
    ensures d.Fail? <==> (event.Message? && event.fromUser.Some?
      && event.fromUser.value.id !in users && Listed(adminIds, event.fromUser.value.id).Err?)
    ensures d == Deny ==> (event.Message? && event.fromUser.Some?
      && (event.fromUser.value.id in users || Listed(adminIds, event.fromUser.value.id) == Config.Ok(false)))
  {
    match event
    case OtherUpdate => Pass
    case Message(None) => Ignore
    case Message(Some(user)) =>
      if user.id in users && users[user.id].isAdmin then Allow
      else if user.id !in users then
        match Listed(adminIds, user.id)
        case Err(e) => Fail(e)
        case Ok(listed) => if listed then Register else Deny
      else Deny
  }

  /** The row create_user inserts for a listed newcomer. */
  function NewAdmin(user: TelegramUser): DbUser {
    DbUser(user.id, user.username, user.fullName, true)
  }

  /** The users table after the decision. */
  function UsersAfter(users: map<int, DbUser>, event: Event, d: Decision): map<int, DbUser>
    requires d == Register ==> event.Message? && event.fromUser.Some?
  {
    if d == Register then users[event.fromUser.value.id := NewAdmin(event.fromUser.value)] else users
  }

  /** The effects of the decision, in order. */
  function EffectsOf(event: Event, d: Decision): seq<Effect>
    requires d == Register || d == Deny ==> event.Message? && event.fromUser.Some?
  {
    match d
    case Pass => [CallHandler]
    case Allow => [CallHandler]
    case Register => [CreateUser(NewAdmin(event.fromUser.value)), CallHandler]
    case Deny => [Answer(DenyText(event.fromUser.value.id))]
    case Ignore => []
    case Fail(_) => []
  }

  function OutcomeOf(d: Decision): Outcome {
    match d
    case Pass => Handled
    case Allow => Handled
    case Register => Handled
    case Deny => Dropped
    case Ignore => Dropped
    case Fail(e) => Raised(e)
  }

  /** AuthMiddleware over a users table it reads and inserts into, recording what it does. */
  class AuthMiddleware {
    var users: map<int, DbUser>
    var effects: seq<Effect>
    const adminIds: string

    constructor (adminIds: string, users: map<int, DbUser>)
      ensures this.adminIds == adminIds && this.users == users && effects == []
    {
      this.adminIds := adminIds;
      this.users := users;
      effects := [];
    }

    /** __call__: the handler runs for other events, for administrators in the table, and for listed
        newcomers once their row exists; a message without a sender is dropped; anyone else is told
        their id and dropped. */
    method Call(event: Event) returns (outcome: Outcome)
      modifies this
      ensures outcome == OutcomeOf(Decide(old(users), adminIds, event))
      ensures users == UsersAfter(old(users), event, Decide(old(users), adminIds, event))
      ensures effects == old(effects) + EffectsOf(event, Decide(old(users), adminIds, event))
    {
      if !event.Message? {
        effects := effects + [CallHandler];
        return Handled;
      }
      if event.fromUser.None? {
        return Dropped;
      }
      var user := event.fromUser.value;
      var telegramId := user.id;
      var dbUser: Option<DbUser> := if telegramId in users then Some(users[telegramId]) else None;
      if dbUser.Some? && dbUser.value.isAdmin {
        effects := effects + [CallHandler];
        return Handled;
      }
      if dbUser.None? {
        outcome := Newcomer(user);
        return;
      }
      effects := effects + [Answer(DenyText(telegramId))];
      return Dropped;
    }

    /** The branch for a user without a row: read the configured list, then register or turn away. */
    method Newcomer(user: TelegramUser) returns (outcome: Outcome)
      requires user.id !in users
      modifies this
      ensures outcome == OutcomeOf(Decide(old(users), adminIds, Message(Some(user))))
      ensures users == UsersAfter(old(users), Message(Some(user)), Decide(old(users), adminIds, Message(Some(user))))
      ensures effects == old(effects) + EffectsOf(Message(Some(user)), Decide(old(users), adminIds, Message(Some(user))))
    {
      var telegramId := user.id;
      var adminIdsList := Config.AdminIdsList(adminIds);
      DecideNewcomer(users, adminIds, user, adminIdsList);
      NewcomerSteps(users, user, adminIdsList, Decide(users, adminIds, Message(Some(user))));
      if adminIdsList.Err? {
        return Raised(adminIdsList.error);
      }
      if telegramId in adminIdsList.value {
        var row := NewAdmin(user);
        users := users[telegramId := row];
        effects := effects + [CreateUser(row), CallHandler];
        return Handled;
      }
      effects := effects + [Answer(DenyText(telegramId))];
      return Dropped;
    }
  }

  // ───────────────────────── properties ─────────────────────────

  /** The reply to a turned-away user shows their id. */
  lemma DenyTextShowsId(telegramId: int)
    ensures Contains(DenyText(telegramId), IntToString(telegramId))
  {
    var prefix := "Доступ запрещён. Ваш ID: ";
    assert DenyText(telegramId)[|prefix|..][..|IntToString(telegramId)|] == IntToString(telegramId);
  }

  /** A listed newcomer is registered once: the next message from the same user is allowed by the table
      alone, whatever the configured list then says. */
  lemma RegisteredThenAllowed(users: map<int, DbUser>, adminIds: string, adminIds2: string, event: Event)
    requires Decide(users, adminIds, event) == Register
    ensures Decide(UsersAfter(users, event, Register), adminIds2, event) == Allow
  {
  }

  /** A denial changes nothing in the table, so the same user stays denied while the settings are the same. */
  lemma DenialIsStable(users: map<int, DbUser>, adminIds: string, event: Event)
    requires Decide(users, adminIds, event) == Deny
    ensures UsersAfter(users, event, Deny) == users
    ensures Decide(UsersAfter(users, event, Deny), adminIds, event) == Deny
  {
  }

  /** A user already in the table without the administrator flag is denied even when the configured list
      names them. */
  lemma ListedNonAdminDenied(users: map<int, DbUser>, adminIds: string, user: TelegramUser)
    requires user.id in users && !users[user.id].isAdmin
    requires Listed(adminIds, user.id) == Config.Ok(true)
    ensures Decide(users, adminIds, Message(Some(user))) == Deny
  {
  }

  /** The handler runs exactly when the decision lets the event through, and never after a denial. */
  lemma HandlerRunsIffAdmitted(event: Event, d: Decision)
    requires d == Register || d == Deny ==> event.Message? && event.fromUser.Some?
    ensures CallHandler in EffectsOf(event, d) <==> OutcomeOf(d) == Handled
    ensures d == Register ==> EffectsOf(event, d)[0].CreateUser? && EffectsOf(event, d)[0].row.isAdmin
  {
  }
}
