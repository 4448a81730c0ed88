/** The four database records of the application (`Parent`, `User`, `Task`,
    `TaskLog`) with their defaults and nullability. Tables are sequences in
    their storage order. */
module Records {
  import opened Wrappers
  import opened Seqs

  /** A parent account; `name` is mandatory and unique across parents. */
  datatype Parent = Parent(id: int, name: string)

  /** A child user. `aiDifficulty` is mandatory (default 10) and `parentId`
      must name an existing parent. The date of birth is stored as text. */
  datatype User = User(id: int, name: string, dob: string, aiDifficulty: int, parentId: int)

  /** A recurring task. `duration` (minutes) is optional; the page-number
      flag defaults to false. */
  datatype Task = Task(
    id: int,
    userId: int,
    title: string,
    frequency: string,
    duration: Option<int>,
    logPageNumbers: bool)

  /** One status row of one task on one day. `title` is the task's title as
      text (not a reference to a task row); `time` is optional. */
  datatype TaskLog = TaskLog(
    id: int,
    userId: int,
    title: string,
    date: string,
    status: string,
    time: Option<string>,
    pageNumbers: Option<string>)

  const DefaultDifficulty: int := 10
  const Done: string := "Done"
  const Todo: string := "TODO"

  /** A user row as created without an explicit difficulty. */
  function NewUser(id: int, name: string, dob: string, parentId: int): (u: User)
    ensures u.aiDifficulty == DefaultDifficulty
    ensures u.id == id && u.name == name && u.dob == dob && u.parentId == parentId
  {
    User(id, name, dob, DefaultDifficulty, parentId)
  }

  /** A task row as created without an explicit page-number flag. */
  function NewTask(id: int, userId: int, title: string, frequency: string, duration: Option<int>): (t: Task)
    ensures !t.logPageNumbers
    ensures t.id == id && t.userId == userId && t.title == title
    ensures t.frequency == frequency && t.duration == duration
  {
    Task(id, userId, title, frequency, duration, false)
  }

  /** The foreign key `User.parent_id -> parents.id`. */
  ghost predicate UsersHaveParents(parents: seq<Parent>, users: seq<User>)
  {
    forall i :: 0 <= i < |users| ==> exists j :: 0 <= j < |parents| && parents[j].id == users[i].parentId
  }

  /** A log row for the (user, title, date) key. The schema declares no
      uniqueness for this key, so a table may hold several such rows. */
  predicate HasKey(l: TaskLog, userId: int, title: string, date: string)
  {
    l.userId == userId && l.title == title && l.date == date
  }

  /** The (user, title, date) key as a row filter. */
  function KeyOf(userId: int, title: string, date: string): TaskLog -> bool
  {
    (l: TaskLog) => HasKey(l, userId, title, date)
  }

  function KeyCount(logs: seq<TaskLog>, userId: int, title: string, date: string): nat
  {
    Count(logs, KeyOf(userId, title, date))
  }
}
