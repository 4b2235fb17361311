/** The tracker's endpoints over the two tables. `TaskTracker` holds the
    `users` and `tasks` tables and the next serial ids; its methods are the
    request handlers, with the bearer token taken as the requester's user id
    and the current day passed in. The lemmas at the end connect the listing
    endpoint to the store: what it shows, in which groups, in which order. */
module Tracker {
  import opened Common
  import opened Store
  import Passwords
  import opened Grouping

  /** The listing row of a task: `SELECT tag, text, date, id`. */
  function RowOf(t: Task): Row
  {
    Row(t.tag, t.text, t.date, t.id)
  }

  function Rows(ts: seq<Task>): (r: seq<Row>)
    ensures |r| == |ts|
    ensures forall i :: 0 <= i < |ts| ==> r[i] == RowOf(ts[i])
  {
    seq(|ts|, i requires 0 <= i < |ts| => RowOf(ts[i]))
  }

  class TaskTracker {
    var users: seq<User>
    var tasks: seq<Task>
    var nextUserId: int
    var nextTaskId: int
    /** The day the server started, when the default date of a task body is
        computed. */
    const startDay: Date

    ghost predicate Valid()
      reads this
    {
      Consistent(users, tasks, nextUserId, nextTaskId)
    }

    /** A server started on `startDay`, over empty tables whose serial ids
        start at 1. */
    constructor (startDay: Date)
      ensures Valid()
      ensures users == [] && tasks == [] && nextUserId == 1 && nextTaskId == 1
      ensures this.startDay == startDay
    {
      users, tasks := [], [];
      nextUserId, nextTaskId := 1, 1;
      this.startDay := startDay;
    }

    /** `POST /reg`: validate the body, then insert the login with the hash of
        the password. */
    method Register(login: string, password: string) returns (r: Result<string>)
      requires Valid()
      modifies this
      ensures Valid()
      ensures r.Err? <==> RegistrationError(old(users), login, password).Some?
      ensures r.Err? ==> r.error == RegistrationError(old(users), login, password).value
                         && users == old(users) && nextUserId == old(nextUserId)
      ensures r.Ok? ==> r.value == login + " registered"
                        && users == old(users) + [User(old(nextUserId), login, Passwords.Hash(password))]
                        && nextUserId == old(nextUserId) + 1
      ensures tasks == old(tasks) && nextTaskId == old(nextTaskId)
    {
      var e := RegistrationError(users, login, password);
      if e.Some? {
        return Err(e.value);
      }
      users := users + [User(nextUserId, login, Passwords.Hash(password))];
      nextUserId := nextUserId + 1;
      r := Ok(login + " registered");
      UsersGrow(old(users), User(old(nextUserId), login, Passwords.Hash(password)));
    }

    /** `POST /add_task`: validate the body, then insert an open task owned by
        the requester and report its id. An omitted date is the day after the
        request, so every stored task lies in the future. */
    method AddTask(token: int, text: string, date: Option<Date>, tag: Option<string>, today: Date)
      returns (r: Result<int>)
      requires Valid()
      modifies this
      ensures Valid()
      ensures users == old(users) && nextUserId == old(nextUserId)
      ensures r.Ok? <==> ValidateTask(text, date, tag, today).Ok? && IsUser(users, token)
      ensures ValidateTask(text, date, tag, today).Err? ==> r == Err(ValidateTask(text, date, tag, today).error)
      ensures ValidateTask(text, date, tag, today).Ok? && !IsUser(users, token) ==> r == Err(ForeignKeyViolation)
      ensures r.Err? ==> tasks == old(tasks) && nextTaskId == old(nextTaskId)
      ensures r.Ok? ==>
        var d := ValidateTask(text, date, tag, today).value;
        && r.value == old(nextTaskId)
        && tasks == old(tasks) + [Task(r.value, d.text, d.date, false, token, d.tag)]
        && nextTaskId == old(nextTaskId) + 1
      ensures r.Ok? ==> tasks[|tasks| - 1].date > today
    {
      var v := ValidateTask(text, date, tag, today);
      if v.Err? {
        return Err(v.error);
      }
      r := Insert(token, v.value);
    }

    /** `POST /add_task` as the source writes it: an omitted date is the day
        after the server started, whatever the day of the request. */
    method AddTaskAsWritten(token: int, text: string, date: Option<Date>, tag: Option<string>, today: Date)
      returns (r: Result<int>)
      requires Valid()
      modifies this
      ensures Valid()
      ensures users == old(users) && nextUserId == old(nextUserId)
      ensures r.Ok? <==> ValidateTaskAsWritten(text, date, tag, today, startDay).Ok? && IsUser(users, token)
      ensures ValidateTaskAsWritten(text, date, tag, today, startDay).Err? ==>
                r == Err(ValidateTaskAsWritten(text, date, tag, today, startDay).error)
      ensures ValidateTaskAsWritten(text, date, tag, today, startDay).Ok? && !IsUser(users, token) ==>
                r == Err(ForeignKeyViolation)
      ensures r.Err? ==> tasks == old(tasks) && nextTaskId == old(nextTaskId)
      ensures r.Ok? ==>
        var d := ValidateTaskAsWritten(text, date, tag, today, startDay).value;
        && r.value == old(nextTaskId)
        && tasks == old(tasks) + [Task(r.value, d.text, d.date, false, token, d.tag)]
        && nextTaskId == old(nextTaskId) + 1
      ensures r.Ok? && date.None? ==> tasks[|tasks| - 1].date == startDay + 1
    {
      var v := ValidateTaskAsWritten(text, date, tag, today, startDay);
      if v.Err? {
        return Err(v.error);
      }
      r := Insert(token, v.value);
    }

    /** The `INSERT` of `add_task`: the store refuses an owner that is not a
        user; otherwise it appends an open task with the next serial id. */
    method Insert(token: int, d: Draft) returns (r: Result<int>)
      requires Valid()
      modifies this
      ensures Valid()
      ensures users == old(users) && nextUserId == old(nextUserId)
      ensures r.Ok? <==> IsUser(users, token)
      ensures r.Err? ==> r == Err(ForeignKeyViolation) && tasks == old(tasks) && nextTaskId == old(nextTaskId)
      ensures r.Ok? ==>
        && r.value == old(nextTaskId)
        && tasks == old(tasks) + [Task(r.value, d.text, d.date, false, token, d.tag)]
        && nextTaskId == old(nextTaskId) + 1
    {
      if !IsUser(users, token) {
        return Err(ForeignKeyViolation);
      }
      var id := nextTaskId;
      tasks := tasks + [Task(id, d.text, d.date, false, token, d.tag)];
      nextTaskId := nextTaskId + 1;
      r := Ok(id);
    }

    /** `PUT /mark_done`: an unknown id is refused first, then a task of
        another user; otherwise the task's done flag is set and its text is
        reported. */
    method MarkDone(id: int, token: int) returns (r: Result<string>)
      requires Valid()
      modifies this
      ensures Valid()
      ensures users == old(users) && nextUserId == old(nextUserId) && nextTaskId == old(nextTaskId)
      ensures FindTask(old(tasks), id).None? ==> r == Err(TaskNotFound) && tasks == old(tasks)
      ensures FindTask(old(tasks), id).Some? ==>
        var t := old(tasks)[FindTask(old(tasks), id).value];
        && (t.userId != token ==> r == Err(NotYourTask) && tasks == old(tasks))
        && (t.userId == token ==> r == Ok(t.text) && tasks == SetDone(old(tasks), id))
    {
      var found := FindTask(tasks, id);
      if found.None? {
        return Err(TaskNotFound);
      }
      var i := found.value;
      var t := tasks[i];
      if t.userId != token {
        return Err(NotYourTask);
      }
      tasks := tasks[i := t.(isDone := true)];
      r := Ok(t.text);
      assert tasks == SetDone(old(tasks), id);
    }

    /** `POST /token`: the access token is the id of the user whose login and
        password match. */
    method Login(username: string, password: string) returns (r: Result<int>)
      ensures r == LoginOutcome(users, username, password)
    {
      if !LoginTaken(users, username) {
        return Err(UnknownUser);
      }
      var i := FindUser(users, username).value;
      if !Passwords.Verify(password, users[i].hash) {
        return Err(IncorrectPassword);
      }
      r := Ok(users[i].id);
    }

    /** `GET /tasks`: the requester's open tasks, filtered by tag when one is
        given, in date order, grouped by tag. */
    method GetTasks(token: int, tag: string) returns (keys: seq<string>, groups: map<string, seq<Item>>)
      ensures keys == Keys(Rows(ListOpen(tasks, token, tag)))
      ensures forall k :: k in groups <==> k in keys
      ensures forall k :: k in groups ==> groups[k] == Select(Rows(ListOpen(tasks, token, tag)), k)
    {
      var listed := ListOpen(tasks, token, tag);
      keys, groups := GroupTasks(Rows(listed));
    }
  }

  // ---------------------------------------------------------------------
  // What the listing shows

  /** An item appears in group `k` of a user's listing exactly when it comes
      from a task of the table that the listing admits and whose key is `k`. */
  lemma ListingGroupMembers(tasks: seq<Task>, user: int, tag: string, k: string, x: Item)
    ensures x in Select(Rows(ListOpen(tasks, user, tag)), k)
        <==> exists t :: t in tasks && Listed(t, user, tag) && KeyOf(t.tag) == k && ItemOf(RowOf(t)) == x
  {
    var listed := ListOpen(tasks, user, tag);
    var rows := Rows(listed);
    SelectMembers(rows, k);
    if x in Select(rows, k) {
      var i :| 0 <= i < |rows| && KeyOf(rows[i].tag) == k && ItemOf(rows[i]) == x;
      var t := listed[i];
      ListOpenMembers(tasks, user, tag, t);
      assert t in tasks && Listed(t, user, tag) && KeyOf(t.tag) == k && ItemOf(RowOf(t)) == x;
    }
    if t :| t in tasks && Listed(t, user, tag) && KeyOf(t.tag) == k && ItemOf(RowOf(t)) == x {
      ListOpenMembers(tasks, user, tag, t);
      var i :| 0 <= i < |listed| && listed[i] == t;
      assert KeyOf(rows[i].tag) == k && ItemOf(rows[i]) == x;
    }
  }

  /** Every group of a listing is in ascending date order. */
  lemma ListingGroupsDateAscending(tasks: seq<Task>, user: int, tag: string, k: string)
    ensures var g := Select(Rows(ListOpen(tasks, user, tag)), k);
            forall p, q :: 0 <= p < q < |g| ==> g[p].until <= g[q].until
  {
    var rows := Rows(ListOpen(tasks, user, tag));
    assert DateAscending(rows);
    GroupsDateAscending(rows, k);
  }

  /** A task just added is listed for its owner without a filter and with its
      own tag as filter, in the group of its key. */
  lemma AddedTaskIsListed(tasks: seq<Task>, id: int, d: Draft, user: int)
    ensures var t := Task(id, d.text, d.date, false, user, d.tag);
            && Item(id, d.text, d.date) in Select(Rows(ListOpen(tasks + [t], user, "")), KeyOf(d.tag))
            && Item(id, d.text, d.date) in Select(Rows(ListOpen(tasks + [t], user, d.tag)), KeyOf(d.tag))
  {
    var t := Task(id, d.text, d.date, false, user, d.tag);
    assert (tasks + [t])[|tasks|] == t;
    ListingGroupMembers(tasks + [t], user, "", KeyOf(d.tag), ItemOf(RowOf(t)));
    ListingGroupMembers(tasks + [t], user, d.tag, KeyOf(d.tag), ItemOf(RowOf(t)));
  }

  /** Once a task is marked done, no group of any listing holds it. */
  lemma MarkedTaskLeavesListing(tasks: seq<Task>, id: int, user: int, tag: string, k: string)
    ensures forall x :: x in Select(Rows(ListOpen(SetDone(tasks, id), user, tag)), k) ==> x.id != id
  {
    forall x | x in Select(Rows(ListOpen(SetDone(tasks, id), user, tag)), k)
      ensures x.id != id
    {
      ListingGroupMembers(SetDone(tasks, id), user, tag, k, x);
      var t :| t in SetDone(tasks, id) && Listed(t, user, tag) && KeyOf(t.tag) == k && ItemOf(RowOf(t)) == x;
      var i :| 0 <= i < |SetDone(tasks, id)| && SetDone(tasks, id)[i] == t;
    }
  }
}
