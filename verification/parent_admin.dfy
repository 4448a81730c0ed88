/** The parent page's form actions over the task and user tables: add, edit
    and delete a task, edit a user, and the default choice of the selected
    user. Form fields are optional text (`None` when the field is absent);
    Python's truthiness makes an empty field count as absent where the
    source tests a field with `if`. An uncaught error (a bad integer, a
    NOT NULL violation) is `Err` and leaves the tables as they were. */
module ParentAdmin {
  import opened Wrappers
  import opened Seqs
  import opened Text
  import opened Records
  import opened Difficulty

  /** A form field that Python treats as true: present and non-empty. */
  predicate Filled(f: Option<string>)
  {
    f.Some? && f.value != ""
  }

  /** `int(duration) if duration else None`: `Err` when the text is not an
      integer. */
  function ParseDuration(duration: Option<string>): (r: Result<Option<int>, string>)
    ensures !Filled(duration) ==> r == Ok(None)
    ensures Filled(duration) ==> (r.Ok? <==> ParseInt(duration.value).Some?)
    ensures Filled(duration) && r.Ok? ==> r.value == ParseInt(duration.value)
  {
    if !Filled(duration) then Ok(None)
    else match ParseInt(duration.value)
      case None => Err("ValueError")
      case Some(v) => Ok(Some(v))
  }

  /** The check box is ticked exactly when the field is "on". */
  function Checked(flag: Option<string>): bool
  {
    flag == Some("on")
  }

  /** The "add" action: a task is appended only when both title and
      frequency are filled in; `freshId` is the id the database assigns. */
  function AddTask(tasks: seq<Task>, userId: int, title: Option<string>, frequency: Option<string>,
                   duration: Option<string>, flag: Option<string>, freshId: int): (r: Result<seq<Task>, string>)
    ensures !(Filled(title) && Filled(frequency)) ==> r == Ok(tasks)
    ensures Filled(title) && Filled(frequency) ==> (r.Err? <==> ParseDuration(duration).Err?)
    ensures Filled(title) && Filled(frequency) && r.Ok? ==>
      && |r.value| == |tasks| + 1
      && r.value[..|tasks|] == tasks
      && r.value[|tasks|] == Task(freshId, userId, title.value, frequency.value, ParseDuration(duration).value, Checked(flag))
    ensures Filled(title) && Filled(frequency) && r.Ok? && !Checked(flag) ==>
      r.value[|tasks|] == NewTask(freshId, userId, title.value, frequency.value, ParseDuration(duration).value)
  {
    if !(Filled(title) && Filled(frequency)) then Ok(tasks)
    else match ParseDuration(duration)
      case Err(e) => Err(e)
      case Ok(d) =>
        Ok(tasks + [NewTask(freshId, userId, title.value, frequency.value, d).(logPageNumbers := Checked(flag))])
  }

  /** Row `i` is the first task of `userId` titled `title`, the one
      `filter_by(user_id=..., task=...).first()` returns. A missing title
      field matches no row. */
  predicate FirstTask(tasks: seq<Task>, userId: int, title: Option<string>, i: int)
  {
    && title.Some?
    && 0 <= i < |tasks|
    && tasks[i].userId == userId && tasks[i].title == title.value
    && forall j :: 0 <= j < i ==> !(tasks[j].userId == userId && tasks[j].title == title.value)
  }

  predicate NoTask(tasks: seq<Task>, userId: int, title: Option<string>)
  {
    title.None? || forall j :: 0 <= j < |tasks| ==> !(tasks[j].userId == userId && tasks[j].title == title.value)
  }

  function FindTask(tasks: seq<Task>, userId: int, title: Option<string>): (r: Option<nat>)
    ensures r.Some? ==> FirstTask(tasks, userId, title, r.value)
    ensures r.None? <==> NoTask(tasks, userId, title)
  {
    if title.None? then None
    else FindFirst(tasks, (t: Task) => t.userId == userId && t.title == title.value)
  }

  /** The "edit" action: the first task of the user with the old title gets
      the new title, frequency, duration and flag. With no such task nothing
      changes. A bad duration raises, and so does a missing title or
      frequency, which the NOT NULL columns refuse; an empty one is stored. */
  function EditTask(tasks: seq<Task>, userId: int, oldTitle: Option<string>, newTitle: Option<string>,
                    frequency: Option<string>, duration: Option<string>, flag: Option<string>): (r: Result<seq<Task>, string>)
    ensures NoTask(tasks, userId, oldTitle) ==> r == Ok(tasks)
    ensures forall i :: FirstTask(tasks, userId, oldTitle, i) ==>
      (r.Ok? <==> ParseDuration(duration).Ok? && newTitle.Some? && frequency.Some?)
    ensures forall i :: FirstTask(tasks, userId, oldTitle, i) && r.Ok? ==>
      r.value == tasks[i := tasks[i].(title := newTitle.value, frequency := frequency.value,
                                      duration := ParseDuration(duration).value, logPageNumbers := Checked(flag))]
  {
    match FindTask(tasks, userId, oldTitle)
    case None => Ok(tasks)
    case Some(i) =>
      match ParseDuration(duration)
      case Err(e) => Err(e)
      case Ok(d) =>
        if newTitle.None? || frequency.None? then Err("IntegrityError")
        else Ok(tasks[i := tasks[i].(title := newTitle.value, frequency := frequency.value,
                                     duration := d, logPageNumbers := Checked(flag))])
  }

  /** The "delete" action: only the first task of the user with that title
      is removed. */
  function DeleteTask(tasks: seq<Task>, userId: int, oldTitle: Option<string>): (r: seq<Task>)
    ensures NoTask(tasks, userId, oldTitle) ==> r == tasks
    ensures forall i :: FirstTask(tasks, userId, oldTitle, i) ==> r == RemoveAt(tasks, i)
  {
    match FindTask(tasks, userId, oldTitle)
    case None => tasks
    case Some(i) => RemoveAt(tasks, i)
  }

  /** Deleting keeps every other task, in order, and removes exactly one
      occurrence of the matched row. */
  lemma DeleteKeepsOthers(tasks: seq<Task>, userId: int, oldTitle: Option<string>, i: nat)
    requires FirstTask(tasks, userId, oldTitle, i)
    ensures var r := DeleteTask(tasks, userId, oldTitle);
      && |r| == |tasks| - 1
      && r[..i] == tasks[..i]
      && r[i..] == tasks[i + 1..]
      && multiset(r) == multiset(tasks) - multiset{tasks[i]}
  {
    var r := DeleteTask(tasks, userId, oldTitle);
    assert r == RemoveAt(tasks, i);
    assert r[..i] == tasks[..i];
    assert r[i..] == tasks[i + 1..];
  }

  /** Editing never changes the number of tasks or any task but the matched
      one, and keeps the matched row's id and owner. */
  lemma EditKeepsOthers(tasks: seq<Task>, userId: int, oldTitle: Option<string>, newTitle: Option<string>,
                        frequency: Option<string>, duration: Option<string>, flag: Option<string>, i: nat)
    requires FirstTask(tasks, userId, oldTitle, i)
    requires EditTask(tasks, userId, oldTitle, newTitle, frequency, duration, flag).Ok?
    ensures var r := EditTask(tasks, userId, oldTitle, newTitle, frequency, duration, flag).value;
      && |r| == |tasks|
      && (forall j :: 0 <= j < |tasks| && j != i ==> r[j] == tasks[j])
      && r[i].id == tasks[i].id && r[i].userId == userId
  {
  }

  /** `max(1, min(20, d))`. */
  function Clamp(d: int): (c: int)
    ensures MinDifficulty <= c <= MaxDifficulty
    ensures MinDifficulty <= d <= MaxDifficulty ==> c == d
    ensures d < MinDifficulty ==> c == MinDifficulty
    ensures d > MaxDifficulty ==> c == MaxDifficulty
  {
    Max(MinDifficulty, Min(MaxDifficulty, d))
  }

  /** Row `i` is the user `User.query.get(id)` returns. */
  predicate UserWithId(users: seq<User>, id: int, i: int)
  {
    0 <= i < |users| && users[i].id == id && forall j :: 0 <= j < i ==> users[j].id != id
  }

  predicate NoUserWithId(users: seq<User>, id: int)
  {
    forall j :: 0 <= j < |users| ==> users[j].id != id
  }

  function FindUser(users: seq<User>, id: int): (r: Option<nat>)
    ensures r.Some? ==> UserWithId(users, id, r.value)
    ensures r.None? <==> NoUserWithId(users, id)
  {
    FindFirst(users, (u: User) => u.id == id)
  }

  /** The "edit_user" action: with id, name, date of birth and difficulty
      all filled in, the user with that id gets the new name, the date of
      birth as given (unchecked), and the difficulty clamped into [1, 20].
      Otherwise, or with no such user, nothing changes; a difficulty that is
      not an integer raises. */
  function EditUser(users: seq<User>, id: Option<int>, name: Option<string>, dob: Option<string>,
                    difficulty: Option<string>): (r: Result<seq<User>, string>)
    ensures !(id.Some? && Filled(name) && Filled(dob) && Filled(difficulty)) ==> r == Ok(users)
    ensures id.Some? && NoUserWithId(users, id.value) ==> r == Ok(users)
    ensures forall i :: id.Some? && Filled(name) && Filled(dob) && Filled(difficulty) && UserWithId(users, id.value, i) ==>
      && (r.Ok? <==> ParseInt(difficulty.value).Some?)
      && (r.Ok? ==> r.value == users[i := users[i].(name := name.value, dob := dob.value,
                                                   aiDifficulty := Clamp(ParseInt(difficulty.value).value))])
  {
    if !(id.Some? && Filled(name) && Filled(dob) && Filled(difficulty)) then Ok(users)
    else match FindUser(users, id.value)
      case None => Ok(users)
      case Some(i) =>
        match ParseInt(difficulty.value)
        case None => Err("ValueError")
        case Some(d) =>
          Ok(users[i := users[i].(name := name.value, dob := dob.value, aiDifficulty := Clamp(d))])
  }

  /** Editing a user keeps every level in [1, 20], and the edited user's
      level lies in [1, 20] whatever was typed. */
  lemma EditUserKeepsRange(users: seq<User>, id: Option<int>, name: Option<string>, dob: Option<string>,
                           difficulty: Option<string>)
    requires LevelsInRange(users)
    requires EditUser(users, id, name, dob, difficulty).Ok?
    ensures LevelsInRange(EditUser(users, id, name, dob, difficulty).value)
  {
  }

  /** Editing a user never touches the parent reference, so every user
      still names an existing parent. */
  lemma EditUserKeepsParents(parents: seq<Parent>, users: seq<User>, id: Option<int>, name: Option<string>,
                             dob: Option<string>, difficulty: Option<string>)
    requires UsersHaveParents(parents, users)
    requires EditUser(users, id, name, dob, difficulty).Ok?
    ensures UsersHaveParents(parents, EditUser(users, id, name, dob, difficulty).value)
  {
    var r := EditUser(users, id, name, dob, difficulty).value;
    assert |r| == |users|;
    forall i | 0 <= i < |r|
      ensures r[i].parentId == users[i].parentId
    {
    }
  }

  /** The user the page shows: the requested one, or the first user when
      no id is given and there are users; `None` otherwise. */
  function SelectedUserId(users: seq<User>, requested: Option<int>): (r: Option<int>)
    ensures requested.Some? ==> r == requested
    ensures requested.None? && |users| > 0 ==> r == Some(users[0].id)
    ensures requested.None? && |users| == 0 ==> r.None?
  {
    if requested.None? && |users| > 0 then Some(users[0].id) else requested
  }

  /** The tasks the page lists: those of the selected user, in table order;
      none when no user is selected. */
  function SelectedTasks(tasks: seq<Task>, users: seq<User>, requested: Option<int>): (r: seq<Task>)
    ensures SelectedUserId(users, requested).None? ==> r == []
    ensures forall t :: t in r <==> t in tasks && SelectedUserId(users, requested) == Some(t.userId)
  {
    match SelectedUserId(users, requested)
    case None => []
    case Some(id) => Filter(tasks, (t: Task) => t.userId == id)
  }

  /** With no id requested, the page shows the first user and exactly that
      user's tasks. */
  lemma DefaultShowsFirstUser(tasks: seq<Task>, users: seq<User>, k: nat)
    requires |users| > 0 && k < |tasks|
    ensures tasks[k] in SelectedTasks(tasks, users, None) <==> tasks[k].userId == users[0].id
  {
  }
}
