/** The two tables of the tracker, `users` and `tasks`, as sequences of rows,
    with the queries, the request-body validators and the listing query that
    the endpoints run against them. Everything here is pure; the class in
    module Tracker holds the tables and performs the inserts and updates. */
module Store {
  import opened Common
  import Passwords

  datatype User = User(id: int, login: string, hash: string)

  datatype Task = Task(id: int, text: string, date: Date, isDone: bool, userId: int, tag: string)

  /** What a valid `add_task` body contributes to the new row. */
  datatype Draft = Draft(text: string, date: Date, tag: string)

  const MinPasswordLength := 8
  const MaxTextLength := 256

  // ---------------------------------------------------------------------
  // Credential store

  predicate LoginTaken(users: seq<User>, login: string)
  {
    exists i :: 0 <= i < |users| && users[i].login == login
  }

  predicate IsUser(users: seq<User>, id: int)
  {
    exists i :: 0 <= i < |users| && users[i].id == id
  }

  predicate UniqueLogins(users: seq<User>)
  {
    forall i, j :: 0 <= i < j < |users| ==> users[i].login != users[j].login
  }

  /** Registering a user keeps every existing user id resolvable. */
  lemma UsersGrow(users: seq<User>, u: User)
    ensures forall id :: IsUser(users, id) ==> IsUser(users + [u], id)
  {
    forall id | IsUser(users, id)
      ensures IsUser(users + [u], id)
    {
      var j :| 0 <= j < |users| && users[j].id == id;
      assert (users + [u])[j] == users[j];
    }
  }

  /** The position of the first user with this login: the row that a lookup
      `WHERE login = ...` followed by `fetchone()` yields. */
  function FindUser(users: seq<User>, login: string): (r: Option<nat>)
    ensures r.None? <==> !LoginTaken(users, login)
    ensures r.Some? ==> r.value < |users| && users[r.value].login == login
    ensures r.Some? ==> forall j :: 0 <= j < r.value ==> users[j].login != login
  {
    if |users| == 0 then None
    else if users[0].login == login then Some(0)
    else match FindUser(users[1..], login)
      case None => None
      case Some(i) => Some(i + 1)
  }

  /** Validation of a registration body. The login field is declared first,
      and its uniqueness check raises at once, so a taken login is reported
      whatever the password; otherwise a password shorter than eight
      characters is a validation error. */
  function RegistrationError(users: seq<User>, login: string, password: string): (r: Option<Error>)
    ensures r.None? <==> !LoginTaken(users, login) && |password| >= MinPasswordLength
    ensures LoginTaken(users, login) ==> r == Some(UserExists)
    ensures !LoginTaken(users, login) && |password| < MinPasswordLength ==> r == Some(Invalid({PasswordTooShort}))
  {
    if FindUser(users, login).Some? then Some(UserExists)
    else if |password| < MinPasswordLength then Some(Invalid({PasswordTooShort}))
    else None
  }

  /** The password-grant login: an unknown login is refused, then the password
      is checked against the stored hash of the first user with that login, and
      the access token is that user's id. */
  function LoginOutcome(users: seq<User>, username: string, password: string): (r: Result<int>)
    ensures r == Err(UnknownUser) <==> !LoginTaken(users, username)
    ensures r.Ok? || r == Err(UnknownUser) || r == Err(IncorrectPassword)
    ensures r.Ok? ==> exists i :: 0 <= i < |users| && users[i].login == username
                                  && users[i].id == r.value && Passwords.Verify(password, users[i].hash)
  {
    match FindUser(users, username)
    case None => Err(UnknownUser)
    case Some(i) =>
      if !Passwords.Verify(password, users[i].hash) then Err(IncorrectPassword)
      else Ok(users[i].id)
  }

  /** When logins are unique, the outcome of a login for an existing user is
      decided by that user's hash alone. */
  lemma LoginOfExistingUser(users: seq<User>, i: nat, password: string)
    requires UniqueLogins(users)
    requires i < |users|
    ensures LoginOutcome(users, users[i].login, password)
         == if Passwords.Verify(password, users[i].hash) then Ok(users[i].id) else Err(IncorrectPassword)
  {
    var found := FindUser(users, users[i].login);
    assert found.Some?;
  }

  /** A login that was free before a registration logs in with the password it
      registered with, and receives the new user's id as its token. */
  lemma RegisterThenLogin(users: seq<User>, id: int, login: string, password: string)
    requires !LoginTaken(users, login)
    ensures LoginOutcome(users + [User(id, login, Passwords.Hash(password))], login, password) == Ok(id)
  {
    var users' := users + [User(id, login, Passwords.Hash(password))];
    var found := FindUser(users', login);
    assert users'[|users|].login == login;
    assert forall j :: 0 <= j < |users| ==> users'[j] == users[j];
    Passwords.VerifyHash(password);
  }

  /** Once a login is registered, registering it again fails with
      "User already exists", whatever the password. */
  lemma RegisterTwice(users: seq<User>, id: int, login: string, password: string, password': string)
    ensures RegistrationError(users + [User(id, login, Passwords.Hash(password))], login, password') == Some(UserExists)
  {
    var users' := users + [User(id, login, Passwords.Hash(password))];
    assert users'[|users|].login == login;
  }

  // ---------------------------------------------------------------------
  // Task validation

  /** Validation of an `add_task` body: text of at most 256 characters, a date
      strictly after today that defaults to tomorrow, a tag that defaults to
      the empty string. Failing fields are all reported together. */
  function ValidateTask(text: string, date: Option<Date>, tag: Option<string>, today: Date): (r: Result<Draft>)
    ensures r.Ok? <==> |text| <= MaxTextLength && (date.Some? ==> date.value > today)
    ensures r.Ok? ==> r.value.text == text && r.value.date > today
    ensures r.Ok? && date.Some? ==> r.value.date == date.value
    ensures r.Ok? && date.None? ==> r.value.date == today + 1
    ensures r.Ok? ==> r.value.tag == if tag.Some? then tag.value else ""
    ensures r.Err? ==> r.error.Invalid?
    ensures r.Err? ==> (TextTooLong in r.error.faults <==> |text| > MaxTextLength)
    ensures r.Err? ==> (DateNotInFuture in r.error.faults <==> date.Some? && date.value <= today)
    ensures r.Err? ==> PasswordTooShort !in r.error.faults
  {
    var faults := (if |text| > MaxTextLength then {TextTooLong} else {})
                + (if date.Some? && date.value <= today then {DateNotInFuture} else {});
    if faults != {} then Err(Invalid(faults))
    else Ok(Draft(text, if date.Some? then date.value else today + 1, if tag.Some? then tag.value else ""))
  }

  /** The validation as the source writes it: the default date is computed
      once, when the server starts (`startDay`), and a default is not run
      through the future-date check. */
  function ValidateTaskAsWritten(text: string, date: Option<Date>, tag: Option<string>,
                                 today: Date, startDay: Date): (r: Result<Draft>)
    ensures r.Ok? <==> |text| <= MaxTextLength && (date.Some? ==> date.value > today)
    ensures r.Ok? && date.None? ==> r.value.date == startDay + 1
  {
    var faults := (if |text| > MaxTextLength then {TextTooLong} else {})
                + (if date.Some? && date.value <= today then {DateNotInFuture} else {});
    if faults != {} then Err(Invalid(faults))
    else Ok(Draft(text, if date.Some? then date.value else startDay + 1, if tag.Some? then tag.value else ""))
  }

  /** A server started on day 3 and asked on day 10 for a task without a date
      accepts it with the date of day 4, six days in the past. */
  lemma StaleDefaultDate()
    ensures var r := ValidateTaskAsWritten("water the plants", None, None, 10, 3);
            r.Ok? && r.value.date == 4 && r.value.date <= 10
  {
  }

  /** The two validations agree on every request made on the day the server
      started, and on every request that gives a date. */
  lemma AsWrittenAgreesOnFirstDay(text: string, date: Option<Date>, tag: Option<string>, today: Date, startDay: Date)
    requires date.Some? || today == startDay
    ensures ValidateTaskAsWritten(text, date, tag, today, startDay) == ValidateTask(text, date, tag, today)
  {
  }

  // ---------------------------------------------------------------------
  // Task store

  predicate UniqueTaskIds(tasks: seq<Task>)
  {
    forall i, j :: 0 <= i < j < |tasks| ==> tasks[i].id != tasks[j].id
  }

  /** The position of the first task with this id, if any. */
  function FindTask(tasks: seq<Task>, id: int): (r: Option<nat>)
    ensures r.None? <==> forall i :: 0 <= i < |tasks| ==> tasks[i].id != id
    ensures r.Some? ==> r.value < |tasks| && tasks[r.value].id == id
    ensures r.Some? ==> forall j :: 0 <= j < r.value ==> tasks[j].id != id
  {
    if |tasks| == 0 then None
    else if tasks[0].id == id then Some(0)
    else match FindTask(tasks[1..], id)
      case None => None
      case Some(i) => Some(i + 1)
  }

  /** The tasks after `UPDATE tasks SET is_done = true WHERE id = id`. The
      update keeps every row in place, touches only the done flag, only of
      the rows with that id, and only ever sets it. */
  function SetDone(tasks: seq<Task>, id: int): (r: seq<Task>)
    ensures |r| == |tasks|
    ensures forall i :: 0 <= i < |tasks| ==>
      r[i].(isDone := tasks[i].isDone) == tasks[i] && r[i].isDone == (tasks[i].isDone || tasks[i].id == id)
  {
    seq(|tasks|, i requires 0 <= i < |tasks| =>
      if tasks[i].id == id then tasks[i].(isDone := true) else tasks[i])
  }

  /** Marking a task done twice leaves the store as marking it once, and the
      second request finds the same task with the same owner and text. */
  lemma {:induction false} SetDoneTwice(tasks: seq<Task>, id: int)
    ensures SetDone(SetDone(tasks, id), id) == SetDone(tasks, id)
    ensures FindTask(SetDone(tasks, id), id) == FindTask(tasks, id)
    ensures FindTask(tasks, id).Some? ==>
      var i := FindTask(tasks, id).value;
      SetDone(tasks, id)[i].userId == tasks[i].userId && SetDone(tasks, id)[i].text == tasks[i].text
  {
    if |tasks| > 0 {
      SetDoneTwice(tasks[1..], id);
      assert SetDone(tasks, id)[1..] == SetDone(tasks[1..], id);
    }
  }

  // ---------------------------------------------------------------------
  // Listing query

  /** A task the listing shows to `user` under the tag filter `tag`: owned by
      the user, still open, and, when the filter is non-empty, carrying
      exactly that tag. */
  predicate Listed(t: Task, user: int, tag: string)
  {
    t.userId == user && !t.isDone && (tag == "" || t.tag == tag)
  }

  /** The rows the `WHERE` clause of the listing selects, in table order. */
  function OpenTasks(tasks: seq<Task>, user: int, tag: string): (r: seq<Task>)
    ensures forall t :: multiset(r)[t] == if Listed(t, user, tag) then multiset(tasks)[t] else 0
  {
    if |tasks| == 0 then []
    else
      assert tasks == [tasks[0]] + tasks[1..];
      (if Listed(tasks[0], user, tag) then [tasks[0]] else []) + OpenTasks(tasks[1..], user, tag)
  }

  predicate SortedByDate(ts: seq<Task>)
  {
    forall i, j :: 0 <= i < j < |ts| ==> ts[i].date <= ts[j].date
  }

  function InsertByDate(t: Task, ts: seq<Task>): (r: seq<Task>)
    requires SortedByDate(ts)
    ensures SortedByDate(r)
    ensures multiset(r) == multiset(ts) + multiset{t}
  {
    if ts == [] || t.date <= ts[0].date then
      SortedCons(t, ts);
      [t] + ts
    else
      var rest := InsertByDate(t, ts[1..]);
      assert ts == [ts[0]] + ts[1..];
      BoundedBelow(ts[0], t, ts[1..], rest);
      SortedCons(ts[0], rest);
      [ts[0]] + rest
  }

  lemma SortedCons(t: Task, ts: seq<Task>)
    requires SortedByDate(ts)
    requires forall x :: x in ts ==> t.date <= x.date
    ensures SortedByDate([t] + ts)
  {
    forall i, j | 0 <= i < j < |ts| + 1
      ensures ([t] + ts)[i].date <= ([t] + ts)[j].date
    {
      assert ([t] + ts)[j] == ts[j - 1];
      if i > 0 {
        assert ([t] + ts)[i] == ts[i - 1];
      }
    }
  }

  lemma BoundedBelow(low: Task, t: Task, tail: seq<Task>, rest: seq<Task>)
    requires low.date <= t.date
    requires SortedByDate([low] + tail)
    requires multiset(rest) == multiset(tail) + multiset{t}
    ensures forall x :: x in rest ==> low.date <= x.date
  {
    forall x | x in rest
      ensures low.date <= x.date
    {
      assert x in multiset(rest);
      if x != t {
        assert x in multiset(tail);
        var k :| 0 <= k < |tail| && tail[k] == x;
        assert ([low] + tail)[0] == low && ([low] + tail)[k + 1] == x;
      }
    }
  }

  /** `ORDER BY date ASC`: a date-ascending permutation of its input. */
  function SortByDate(ts: seq<Task>): (r: seq<Task>)
    ensures SortedByDate(r)
    ensures multiset(r) == multiset(ts)
  {
    if ts == [] then []
    else
      assert ts == [ts[0]] + ts[1..];
      InsertByDate(ts[0], SortByDate(ts[1..]))
  }

  /** The listing query: the user's open tasks, restricted to the tag filter
      when it is non-empty, in ascending date order. Each listed task occurs
      as often as in the table, and no other task occurs. */
  function ListOpen(tasks: seq<Task>, user: int, tag: string): (r: seq<Task>)
    ensures SortedByDate(r)
    ensures forall t :: multiset(r)[t] == if Listed(t, user, tag) then multiset(tasks)[t] else 0
  {
    SortByDate(OpenTasks(tasks, user, tag))
  }

  /** After marking a task done, every listing lists the same tasks as
      before, except those with that id. */
  lemma SetDoneHidesTask(tasks: seq<Task>, id: int, user: int, tag: string)
    ensures forall t :: t in ListOpen(SetDone(tasks, id), user, tag) <==> t in ListOpen(tasks, user, tag) && t.id != id
  {
    forall t
      ensures t in ListOpen(SetDone(tasks, id), user, tag) <==> t in ListOpen(tasks, user, tag) && t.id != id
    {
      ListOpenMembers(SetDone(tasks, id), user, tag, t);
      ListOpenMembers(tasks, user, tag, t);
      SetDoneOpenRows(tasks, id, t);
    }
  }

  /** The open rows after the update are the open rows before it, except
      those with the updated id. */
  lemma SetDoneOpenRows(tasks: seq<Task>, id: int, t: Task)
    ensures t in SetDone(tasks, id) && !t.isDone <==> t in tasks && !t.isDone && t.id != id
  {
    var after := SetDone(tasks, id);
    if t in after && !t.isDone {
      var i :| 0 <= i < |after| && after[i] == t;
      assert tasks[i] == t;
    }
    if t in tasks && !t.isDone && t.id != id {
      var i :| 0 <= i < |tasks| && tasks[i] == t;
      assert after[i] == t;
    }
  }

  /** A task is listed exactly when it is in the table and passes the filter. */
  lemma ListOpenMembers(tasks: seq<Task>, user: int, tag: string, t: Task)
    ensures t in ListOpen(tasks, user, tag) <==> t in tasks && Listed(t, user, tag)
  {
    var r := ListOpen(tasks, user, tag);
    assert t in r <==> multiset(r)[t] > 0;
    assert t in tasks <==> multiset(tasks)[t] > 0;
  }

  // ---------------------------------------------------------------------
  // Store invariant

  /** What the two tables keep true between requests: serial ids that are
      positive, distinct and below the next id to hand out, unique logins, and
      every task owned by an existing user. The next ids to hand out are
      therefore fresh. */
  predicate Consistent(users: seq<User>, tasks: seq<Task>, nextUserId: int, nextTaskId: int): (b: bool)
    ensures b ==> !IsUser(users, nextUserId) && FindTask(tasks, nextTaskId).None?
  {
    && 1 <= nextUserId && 1 <= nextTaskId
    && (forall i :: 0 <= i < |users| ==> 1 <= users[i].id < nextUserId)
    && (forall i, j :: 0 <= i < j < |users| ==> users[i].id != users[j].id)
    && UniqueLogins(users)
    && (forall i :: 0 <= i < |tasks| ==> 1 <= tasks[i].id < nextTaskId)
    && UniqueTaskIds(tasks)
    && (forall i :: 0 <= i < |tasks| ==> IsUser(users, tasks[i].userId))
  }
}
