/** A user's AI difficulty level: the lookup with its default of 10, the raw
    setter, and the two controls that step it, one on the daily task page and
    one on the AI problems page. Users are looked up by name, and the first
    row with that name is the one read and written. */
module Difficulty {
  import opened Wrappers
  import opened Seqs
  import opened Records

  const MinDifficulty: int := 1
  const MaxDifficulty: int := 20

  /** The result of a difficulty control: the user table afterwards, and
      whether the "already at the maximum" warning is flashed. */
  datatype Adjusted = Adjusted(users: seq<User>, warned: bool)

  /** Row `i` is the first user named `name`, the one `.first()` returns. */
  predicate FirstNamed(users: seq<User>, name: string, i: int)
  {
    0 <= i < |users| && users[i].name == name && forall j :: 0 <= j < i ==> users[j].name != name
  }

  predicate NoUserNamed(users: seq<User>, name: string)
  {
    forall j :: 0 <= j < |users| ==> users[j].name != name
  }

  function NamedFirst(users: seq<User>, name: string): (r: Option<nat>)
    ensures r.Some? ==> FirstNamed(users, name, r.value)
    ensures r.None? <==> NoUserNamed(users, name)
  {
    FindFirst(users, (u: User) => u.name == name)
  }

  /** `get_user_difficulty`: the stored level of the first user with that
      name, 10 when there is none. */
  function GetUserDifficulty(users: seq<User>, name: string): (d: int)
    ensures NoUserNamed(users, name) ==> d == DefaultDifficulty
    ensures forall i :: FirstNamed(users, name, i) ==> d == users[i].aiDifficulty
  {
    match NamedFirst(users, name)
    case None => DefaultDifficulty
    case Some(i) => users[i].aiDifficulty
  }

  /** `update_user_difficulty`: stores `d` as it is (no clamping) in the
      first user with that name; with no such user nothing changes. */
  function UpdateUserDifficulty(users: seq<User>, name: string, d: int): (r: seq<User>)
    ensures |r| == |users|
    ensures NoUserNamed(users, name) ==> r == users
    ensures forall i :: FirstNamed(users, name, i) ==> r == users[i := users[i].(aiDifficulty := d)]
  {
    match NamedFirst(users, name)
    case None => users
    case Some(i) => users[i := users[i].(aiDifficulty := d)]
  }

  /** Reading back after a write gives the written level for a known user,
      and still the default for an unknown one. */
  lemma GetAfterUpdate(users: seq<User>, name: string, d: int)
    ensures GetUserDifficulty(UpdateUserDifficulty(users, name, d), name)
      == if NoUserNamed(users, name) then DefaultDifficulty else d
  {
    var r := UpdateUserDifficulty(users, name, d);
    match NamedFirst(users, name)
    case None =>
    case Some(i) =>
      assert FirstNamed(r, name, i);
  }

  /** A user created without a level reads back the default 10, the same
      value the lookup gives for a name it does not find. */
  lemma NewUserGetsDefault(users: seq<User>, id: int, name: string, dob: string, parentId: int)
    requires NoUserNamed(users, name)
    ensures GetUserDifficulty(users + [NewUser(id, name, dob, parentId)], name) == DefaultDifficulty
    ensures GetUserDifficulty(users, name) == DefaultDifficulty
  {
    var r := users + [NewUser(id, name, dob, parentId)];
    assert FirstNamed(r, name, |users|);
  }

  /** Writing back the level a user already has changes nothing. */
  lemma UpdateWithSameLevel(users: seq<User>, name: string)
    ensures UpdateUserDifficulty(users, name, GetUserDifficulty(users, name)) == users
  {
    match NamedFirst(users, name)
    case None =>
    case Some(i) =>
      assert users[i].(aiDifficulty := users[i].aiDifficulty) == users[i];
  }

  /** The difficulty form of the daily task page: "increase" at 20 or more
      warns and writes nothing, otherwise writes `min(d + 1, 20)`;
      "decrease" writes `max(d - 1, 1)`; an empty or other action does
      nothing. `d` is the current level as `GetUserDifficulty` reads it. */
  function TasksPageAdjust(users: seq<User>, name: string, action: Option<string>): (r: Adjusted)
    ensures r.warned <==> action == Some("increase") && GetUserDifficulty(users, name) >= MaxDifficulty
    ensures action != Some("increase") && action != Some("decrease") ==> r.users == users
    ensures r.warned ==> r.users == users
    ensures var d := GetUserDifficulty(users, name);
      action == Some("increase") && d < MaxDifficulty ==> r.users == UpdateUserDifficulty(users, name, d + 1)
    ensures var d := GetUserDifficulty(users, name);
      action == Some("decrease") ==> r.users == UpdateUserDifficulty(users, name, if d - 1 < MinDifficulty then MinDifficulty else d - 1)
  {
    var d := GetUserDifficulty(users, name);
    ActionsDistinct();
    if action.None? || action.value == "" then Adjusted(users, false)
    else if action.value == "increase" then
      if d >= MaxDifficulty then Adjusted(users, true)
      else Adjusted(UpdateUserDifficulty(users, name, Min(d + 1, MaxDifficulty)), false)
    else if action.value == "decrease" then
      Adjusted(UpdateUserDifficulty(users, name, Max(d - 1, MinDifficulty)), false)
    else Adjusted(users, false)
  }

  /** The two action words differ from each other and from the empty text. */
  lemma ActionsDistinct()
    ensures "increase" != "decrease" && "increase" != "" && "decrease" != ""
  {
    assert "increase"[0] != "decrease"[0];
  }

  function Min(a: int, b: int): int
  {
    if a <= b then a else b
  }

  function Max(a: int, b: int): int
  {
    if a >= b then a else b
  }

  /** One step of `change_difficulty` on the AI problems page, from the
      stored level (missing counts as 10): the new level, and whether the
      warning is flashed. */
  function StepDifficulty(stored: Option<int>, action: Option<string>): (r: (int, bool))
    ensures var d := if stored.Some? then stored.value else DefaultDifficulty;
      && (r.1 <==> action == Some("increase") && d >= MaxDifficulty)
      && (action == Some("increase") ==> r.0 == if d >= MaxDifficulty then d else d + 1)
      && (action == Some("decrease") ==> r.0 == if d - 1 < MinDifficulty then MinDifficulty else d - 1)
      && (action != Some("increase") && action != Some("decrease") ==> r.0 == d)
  {
    var d := if stored.Some? then stored.value else DefaultDifficulty;
    if action == Some("increase") then
      if d >= MaxDifficulty then (d, true) else (d + 1, false)
    else if action == Some("decrease") then (Max(MinDifficulty, d - 1), false)
    else (d, false)
  }

  /** `change_difficulty`: for a known user the stepped level is always
      written back (even when unchanged); an unknown user changes nothing and
      gets no warning. */
  function ChangeDifficulty(users: seq<User>, name: string, action: Option<string>): (r: Adjusted)
    ensures NoUserNamed(users, name) ==> r == Adjusted(users, false)
    ensures forall i :: FirstNamed(users, name, i) ==>
      r == Adjusted(UpdateUserDifficulty(users, name, StepDifficulty(Some(users[i].aiDifficulty), action).0),
                    StepDifficulty(Some(users[i].aiDifficulty), action).1)
  {
    match NamedFirst(users, name)
    case None => Adjusted(users, false)
    case Some(i) =>
      var step := StepDifficulty(Some(users[i].aiDifficulty), action);
      Adjusted(UpdateUserDifficulty(users, name, step.0), step.1)
  }

  /** A level in [1, 20] stays in [1, 20] whatever the action. */
  lemma StepStaysInRange(d: int, action: Option<string>)
    requires MinDifficulty <= d <= MaxDifficulty
    ensures MinDifficulty <= StepDifficulty(Some(d), action).0 <= MaxDifficulty
  {
  }

  /** Every user's level in [1, 20]. */
  ghost predicate LevelsInRange(users: seq<User>)
  {
    forall i :: 0 <= i < |users| ==> MinDifficulty <= users[i].aiDifficulty <= MaxDifficulty
  }

  /** Both controls keep every level in [1, 20]. */
  lemma ControlsKeepRange(users: seq<User>, name: string, action: Option<string>)
    requires LevelsInRange(users)
    ensures LevelsInRange(ChangeDifficulty(users, name, action).users)
    ensures LevelsInRange(TasksPageAdjust(users, name, action).users)
  {
    match NamedFirst(users, name)
    case None =>
    case Some(i) =>
      var d := users[i].aiDifficulty;
      assert GetUserDifficulty(users, name) == d;
      StepStaysInRange(d, action);
  }

  /** The raw setter does not clamp: a known user can be given level 0 or 21
      and then lies outside [1, 20]. */
  lemma SetterDoesNotClamp(users: seq<User>, name: string, d: int)
    requires !NoUserNamed(users, name)
    ensures GetUserDifficulty(UpdateUserDifficulty(users, name, d), name) == d
  {
    GetAfterUpdate(users, name, d);
  }

  /** The two controls have the same effect: the same table afterwards and
      the same warning, for any user, level and action. */
  lemma ControlsAgree(users: seq<User>, name: string, action: Option<string>)
    ensures TasksPageAdjust(users, name, action) == ChangeDifficulty(users, name, action)
  {
    match NamedFirst(users, name)
    case None =>
    case Some(i) =>
      var d := users[i].aiDifficulty;
      assert GetUserDifficulty(users, name) == d;
      var step := StepDifficulty(Some(d), action);
      assert ChangeDifficulty(users, name, action) == Adjusted(UpdateUserDifficulty(users, name, step.0), step.1);
      ActionsDistinct();
      if action == Some("increase") {
        if d >= MaxDifficulty {
          UpdateWithSameLevel(users, name);
        }
      } else if action == Some("decrease") {
      } else {
        UpdateWithSameLevel(users, name);
      }
  }

}
