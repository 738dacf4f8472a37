/**
 `TaskScheduler.get_tasks_for_date` and the section names of imported tasks.

 The configuration is the list of its sections in file order, each a name
 and the section's options (an insertion-ordered string mapping that
 includes `schedule` when one was given). A section named
 `<prefix>.<client>.<task>` — exactly two dots, the prefix never looked at —
 describes one task. For a date, every task section whose schedule fires
 is copied into the report under `report[client][task]`; a later section
 with the same client and task replaces an earlier one, and the first
 schedule that raises aborts the whole call.
 */
module Tasks {
  import opened Outcomes
  import opened Strings
  import opened Calendar
  import opened Schedule
  import opened Dicts

  const Dot: char := '.'
  const ClientPrefix: string := "Client"
  const ScheduleOption: string := "schedule"

  /** A section's options, as `dict(self.config[section])` lists them. */
  type Options = Dict<string>

  datatype Section = Section(name: string, options: Options)

  /** `self.config.sections()`, in file order. */
  type Config = seq<Section>

  /** The tasks of one client, by task name. */
  type TaskTable = Dict<Options>

  /** What `get_tasks_for_date` returns: task tables by client name. */
  type Report = Dict<TaskTable>

  /** The section name `read_csv_tasks` files a CSV row's task under. */
  function SectionName(client: string, task: string): (name: string)
    ensures StartsWith(name, ClientPrefix + [Dot])
    ensures multiset(name)[Dot] == 2 + multiset(client)[Dot] + multiset(task)[Dot]
  {
    var name := ClientPrefix + [Dot] + client + [Dot] + task;
    assert multiset(name) == multiset(ClientPrefix) + multiset{Dot} + multiset(client) + multiset{Dot} + multiset(task);
    assert Dot !in ClientPrefix;
    name
  }

  /**
   The client and task a section describes: `section.split('.')` must give
   exactly three parts, and the second and third are the client and the task.
   */
  function SectionKey(name: string): Option<(string, string)> {
    var parts := Split(name, [Dot]);
    if |parts| == 3 then Some((parts[1], parts[2])) else None
  }

  /**
   A section name is read as a task exactly when it has two dots; the client
   and the task are then the dot-free texts after the first and the second.
   */
  lemma SectionKeyMeaning(name: string)
    ensures SectionKey(name).Some? <==> multiset(name)[Dot] == 2
    ensures SectionKey(name).Some? ==>
      var (client, task) := SectionKey(name).value;
      && Dot !in client && Dot !in task
      && exists prefix :: Dot !in prefix && name == prefix + [Dot] + client + [Dot] + task
  {
    var parts := Split(name, [Dot]);
    SplitOnCharCount(name, Dot);
    if |parts| == 3 {
      PartsLackChar(name, Dot);
      assert parts == [parts[0], parts[1], parts[2]];
      JoinThree(parts[0], parts[1], parts[2], [Dot]);
    }
  }

  /**
   A CSV task's section name is read back as its client and task exactly
   when neither contains a dot; otherwise aggregation skips it.
   */
  lemma SectionNameRoundTrip(client: string, task: string)
    ensures Dot !in client && Dot !in task ==>
      Split(SectionName(client, task), [Dot]) == [ClientPrefix, client, task]
    ensures SectionKey(SectionName(client, task)) ==
      if Dot !in client && Dot !in task then Some((client, task)) else None
  {
    if Dot !in client && Dot !in task {
      SectionNameSplit(client, task);
    } else {
      DottedNameIgnored(client, task);
    }
  }

  /** Dot-free names split back into the prefix, the client and the task. */
  lemma SectionNameSplit(client: string, task: string)
    requires Dot !in client && Dot !in task
    ensures Split(SectionName(client, task), [Dot]) == [ClientPrefix, client, task]
  {
    JoinThree(ClientPrefix, client, task, [Dot]);
    assert Dot !in ClientPrefix;
    SplitJoinChar([ClientPrefix, client, task], Dot);
  }

  /** A client or task containing a dot gives a name with more than two dots. */
  lemma DottedNameIgnored(client: string, task: string)
    requires Dot in client || Dot in task
    ensures SectionKey(SectionName(client, task)).None?
  {
    SectionKeyMeaning(SectionName(client, task));
    assert multiset(client)[Dot] > 0 || multiset(task)[Dot] > 0;
  }

  /** `self.config[section].get('schedule', '')`. */
  function ScheduleOf(options: Options): (schedule: string)
    ensures ScheduleOption !in Keys(options) ==> schedule == ""
    ensures ScheduleOption in Keys(options) ==> (ScheduleOption, schedule) in options
  {
    match Lookup(options, ScheduleOption)
    case Some(s) => s
    case None => ""
  }

  /** The task table of a client, empty when the client has none yet. */
  function TasksOf(report: Report, client: string): (table: TaskTable)
    ensures client !in Keys(report) ==> table == []
    ensures client in Keys(report) ==> (client, table) in report
  {
    match Lookup(report, client)
    case Some(table) => table
    case None => []
  }

  /** `report[client][task]`, if both keys are present. */
  function TaskEntry(report: Report, client: string, task: string): (entry: Option<Options>)
    ensures entry.Some? <==> client in Keys(report) && task in Keys(TasksOf(report, client))
  {
    Lookup(TasksOf(report, client), task)
  }

  /** `section` describes the task `(client, task)` and its schedule fires on `d`. */
  predicate Selects(section: Section, d: Date, client: string, task: string) {
    SectionKey(section.name) == Some((client, task))
    && ShouldRunTask(ScheduleOf(section.options), d) == Ok(true)
  }

  /**
   The exception a section raises on `d`: sections that do not describe a
   task are never evaluated, so only a task section's schedule can raise.
   */
  function Raised(section: Section, d: Date): (e: Option<Error>)
    ensures e.Some? ==> SectionKey(section.name).Some?
    ensures e.Some? <==> SectionKey(section.name).Some? && ShouldRunTask(ScheduleOf(section.options), d).Err?
    ensures e.Some? ==> e.value.InvalidLiteral?
  {
    match SectionKey(section.name)
    case None => None
    case Some(_) =>
      match ShouldRunTask(ScheduleOf(section.options), d)
      case Ok(_) => None
      case Err(error) => Some(error)
  }

  /**
   A report as `get_tasks_for_date` builds it: no client twice, and every
   client's table non-empty and without a task twice.
   */
  predicate WellGrouped(report: Report) {
    && DistinctKeys(report)
    && forall i :: 0 <= i < |report| ==> GoodTable(report[i].1)
  }

  /** A client's table as the loop leaves it: non-empty, no task twice. */
  predicate GoodTable(table: TaskTable) {
    |table| > 0 && DistinctKeys(table)
  }

  /** One turn of the loop of `get_tasks_for_date`. */
  function AddSection(report: Report, section: Section, d: Date): (r: Result<Report>)
    ensures r.Err? <==> Raised(section, d).Some?
    ensures r.Err? ==> Raised(section, d) == Some(r.error)
  {
    match SectionKey(section.name)
    case None => Ok(report)
    case Some((client, task)) =>
      var fires :- ShouldRunTask(ScheduleOf(section.options), d);
      if fires then Ok(Put(report, client, Put(TasksOf(report, client), task, section.options)))
      else Ok(report)
  }

  /** The loop body as a step function over the report built so far. */
  function AddStep(d: Date): (Report, Section) -> Result<Report> {
    (report, section) => AddSection(report, section, d)
  }

  /** `get_tasks_for_date(d)`: the sections are visited in file order, starting from an empty report. */
  function GetTasksForDate(config: Config, d: Date): Result<Report> {
    FoldResult([], config, AddStep(d))
  }

  /** The failure of each section, as a function. */
  function RaisedOn(d: Date): Section -> Option<Error> {
    section => Raised(section, d)
  }

  /** The call raises exactly when some task section's schedule raises. */
  lemma GetTasksRaises(config: Config, d: Date)
    ensures GetTasksForDate(config, d).Err? <==> exists i :: 0 <= i < |config| && Raised(config[i], d).Some?
  {
    FoldResultFails([], config, AddStep(d), RaisedOn(d));
  }

  /**
   A call that raises raises the error of the first section that raises:
   the sections before it were evaluated without error.
   */
  lemma GetTasksFirstError(config: Config, d: Date)
    ensures GetTasksForDate(config, d).Err? ==> GetTasksForDate(config, d).error.InvalidLiteral?
    ensures GetTasksForDate(config, d).Err? ==>
      exists i :: && 0 <= i < |config|
                  && Raised(config[i], d) == Some(GetTasksForDate(config, d).error)
                  && forall j :: 0 <= j < i ==> Raised(config[j], d).None?
  {
    if GetTasksForDate(config, d).Err? {
      FoldResultFirstError([], config, AddStep(d), RaisedOn(d));
    }
  }

  /** A report the call returns is well grouped. */
  lemma GetTasksWellGrouped(config: Config, d: Date)
    requires GetTasksForDate(config, d).Ok?
    ensures WellGrouped(GetTasksForDate(config, d).value)
  {
    forall report, section | WellGrouped(report) && AddSection(report, section, d).Ok?
      ensures WellGrouped(AddSection(report, section, d).value)
    {
      AddSectionWellGrouped(report, section, d);
    }
    FoldResultInvariant([], config, AddStep(d), report => WellGrouped(report));
  }

  /** Whether a section selects `(client, task)` on `d`, as a function. */
  function SelectsOn(d: Date, client: string, task: string): Section -> bool {
    section => Selects(section, d, client, task)
  }

  /**
   The options `report[client][task]` should hold after the loop: those of
   the last section that selects the task, because a later assignment
   replaces an earlier one.
   */
  function LastSelected(config: Config, d: Date, client: string, task: string): Option<Options> {
    match LastWhere(config, SelectsOn(d, client, task))
    case Some(i) => Some(config[i].options)
    case None => None
  }

  /** No section selects the task exactly when there is no last one. */
  lemma LastSelectedNone(config: Config, d: Date, client: string, task: string)
    ensures LastSelected(config, d, client, task).None? <==>
      forall i :: 0 <= i < |config| ==> !Selects(config[i], d, client, task)
  {
    var selects := SelectsOn(d, client, task);
    assert forall i :: 0 <= i < |config| ==> (selects(config[i]) <==> Selects(config[i], d, client, task));
  }

  /** The options found are those of a selecting section that no later section overrides. */
  lemma LastSelectedSome(config: Config, d: Date, client: string, task: string)
    ensures LastSelected(config, d, client, task).Some? ==>
      exists i :: && 0 <= i < |config| && Selects(config[i], d, client, task)
                  && LastSelected(config, d, client, task).value == config[i].options
                  && forall j :: i < j < |config| ==> !Selects(config[j], d, client, task)
  {
    var selects := SelectsOn(d, client, task);
    if LastWhere(config, selects).Some? {
      var i := LastWhere(config, selects).value;
      assert Selects(config[i], d, client, task) by {
        assert selects(config[i]);
      }
      forall j | i < j < |config| ensures !Selects(config[j], d, client, task) {
        assert !selects(config[j]);
      }
    }
  }

  /** The last section selecting a task is the final one, or else the last among the earlier ones. */
  lemma LastSelectedStep(config: Config, d: Date, client: string, task: string)
    requires |config| > 0
    ensures LastSelected(config, d, client, task) ==
      if Selects(config[|config| - 1], d, client, task) then Some(config[|config| - 1].options)
      else LastSelected(config[..|config| - 1], d, client, task)
  {
    var selects := SelectsOn(d, client, task);
    assert selects(config[|config| - 1]) == Selects(config[|config| - 1], d, client, task);
    var init := config[..|config| - 1];
    match LastWhere(init, selects)
    case Some(i) =>
      assert init[i] == config[i];
    case None =>
  }

  /** One turn of the loop changes `report[client][task]` only when the section selects that task. */
  lemma AddSectionEntry(report: Report, section: Section, d: Date, client: string, task: string)
    requires AddSection(report, section, d).Ok?
    ensures TaskEntry(AddSection(report, section, d).value, client, task) ==
      if Selects(section, d, client, task) then Some(section.options) else TaskEntry(report, client, task)
  {
    match SectionKey(section.name)
    case None =>
    case Some((c, t)) =>
      var table := Put(TasksOf(report, c), t, section.options);
      if ShouldRunTask(ScheduleOf(section.options), d) == Ok(true) {
        assert AddSection(report, section, d).value == Put(report, c, table);
        if client == c {
          assert Lookup(Put(report, c, table), c) == Some(table);
        } else {
          assert Lookup(Put(report, c, table), client) == Lookup(report, client);
        }
      }
  }

  /**
   After the loop, `report[client][task]` holds the options of the last
   section that selects the task, and is absent when no section does.
   */
  lemma {:induction false} GetTasksEntries(config: Config, d: Date, client: string, task: string)
    requires GetTasksForDate(config, d).Ok?
    ensures TaskEntry(GetTasksForDate(config, d).value, client, task) == LastSelected(config, d, client, task)
    decreases |config|
  {
    if |config| > 0 {
      var init := config[..|config| - 1];
      var last := config[|config| - 1];
      var earlier := GetTasksForDate(init, d);
      assert earlier.Ok? && GetTasksForDate(config, d) == AddSection(earlier.value, last, d);
      GetTasksEntries(init, d, client, task);
      AddSectionEntry(earlier.value, last, d, client, task);
      LastSelectedStep(config, d, client, task);
    }
  }

  /** A client is in the report exactly when a section selects one of its tasks. */
  lemma GetTasksClients(config: Config, d: Date, client: string)
    requires GetTasksForDate(config, d).Ok?
    ensures client in Keys(GetTasksForDate(config, d).value) <==>
      exists i, task :: 0 <= i < |config| && Selects(config[i], d, client, task)
  {
    var report := GetTasksForDate(config, d).value;
    if client in Keys(report) {
      GetTasksWellGrouped(config, d);
      var k :| 0 <= k < |report| && Keys(report)[k] == client;
      var table := report[k].1;
      assert GoodTable(table);
      LookupEntry(report, k);
      var task := table[0].0;
      assert Keys(table)[0] == task;
      GetTasksEntries(config, d, client, task);
      LastSelectedSome(config, d, client, task);
    }
    if exists i, task :: 0 <= i < |config| && Selects(config[i], d, client, task) {
      var i, task :| 0 <= i < |config| && Selects(config[i], d, client, task);
      LastSelectedNone(config, d, client, task);
      GetTasksEntries(config, d, client, task);
    }
  }

  /** The client and task a section adds to the report on `d`, if its schedule fires. */
  function Picked(section: Section, d: Date): (p: Option<(string, string)>)
    ensures p.Some? ==> Selects(section, d, p.value.0, p.value.1)
    ensures p.None? ==> forall client, task :: !Selects(section, d, client, task)
  {
    match SectionKey(section.name)
    case None => None
    case Some(key) => if ShouldRunTask(ScheduleOf(section.options), d) == Ok(true) then Some(key) else None
  }

  /**
   A section selects at most one task on `d`, the one `Picked` names, and a
   loop turn assigns the section's options to that task's entry and leaves
   every other entry of the report as it was.
   */
  lemma PickedIsTheChange(report: Report, section: Section, d: Date)
    requires AddSection(report, section, d).Ok?
    ensures forall client, task :: Selects(section, d, client, task) <==> Picked(section, d) == Some((client, task))
    ensures forall client, task ::
              TaskEntry(AddSection(report, section, d).value, client, task) ==
              if Picked(section, d) == Some((client, task)) then Some(section.options) else TaskEntry(report, client, task)
  {
    forall client, task
      ensures TaskEntry(AddSection(report, section, d).value, client, task) ==
        if Picked(section, d) == Some((client, task)) then Some(section.options) else TaskEntry(report, client, task)
    {
      AddSectionEntry(report, section, d, client, task);
    }
  }

  /** The clients of the sections that fire on `d`, in file order, repeats included. */
  function FiringClients(config: Config, d: Date): seq<string>
    decreases |config|
  {
    if |config| == 0 then []
    else
      var earlier := FiringClients(config[..|config| - 1], d);
      match Picked(config[|config| - 1], d)
      case Some((c, _)) => earlier + [c]
      case None => earlier
  }

  /** The tasks of `client` whose sections fire on `d`, in file order, repeats included. */
  function FiringTasks(config: Config, d: Date, client: string): seq<string>
    decreases |config|
  {
    if |config| == 0 then []
    else
      var earlier := FiringTasks(config[..|config| - 1], d, client);
      match Picked(config[|config| - 1], d)
      case Some((c, t)) => if c == client then earlier + [t] else earlier
      case None => earlier
  }

  /** One loop turn appends the client of a firing section to the report's keys when it is new. */
  lemma AddSectionKeys(report: Report, section: Section, d: Date)
    requires AddSection(report, section, d).Ok?
    ensures Keys(AddSection(report, section, d).value) ==
      match Picked(section, d)
      case Some((c, _)) => if c in Keys(report) then Keys(report) else Keys(report) + [c]
      case None => Keys(report)
  {
    match SectionKey(section.name)
    case None =>
    case Some((c, t)) =>
      if ShouldRunTask(ScheduleOf(section.options), d) == Ok(true) {
        PutKeys(report, c, Put(TasksOf(report, c), t, section.options));
      }
  }

  /** One loop turn appends the task of a firing section to its client's keys when it is new. */
  lemma AddSectionTaskKeys(report: Report, section: Section, d: Date, client: string)
    requires AddSection(report, section, d).Ok?
    ensures Keys(TasksOf(AddSection(report, section, d).value, client)) ==
      var before := Keys(TasksOf(report, client));
      match Picked(section, d)
      case Some((c, t)) =>
        if c != client then before
        else if t in before then before
        else before + [t]
      case None => before
  {
    match SectionKey(section.name)
    case None =>
    case Some((c, t)) =>
      var table := Put(TasksOf(report, c), t, section.options);
      if ShouldRunTask(ScheduleOf(section.options), d) == Ok(true) {
        assert AddSection(report, section, d).value == Put(report, c, table);
        if client == c {
          assert Lookup(Put(report, c, table), c) == Some(table);
          PutKeys(TasksOf(report, c), t, section.options);
        } else {
          assert Lookup(Put(report, c, table), client) == Lookup(report, client);
        }
      }
  }

  /**
   The report lists its clients in the order in which their first firing
   section appears in the file.
   */
  lemma {:induction false} GetTasksClientOrder(config: Config, d: Date)
    requires GetTasksForDate(config, d).Ok?
    ensures Keys(GetTasksForDate(config, d).value) == FirstOccurrences(FiringClients(config, d))
    decreases |config|
  {
    if |config| > 0 {
      var init := config[..|config| - 1];
      var last := config[|config| - 1];
      var earlier := GetTasksForDate(init, d);
      assert earlier.Ok? && GetTasksForDate(config, d) == AddSection(earlier.value, last, d);
      GetTasksClientOrder(init, d);
      AddSectionKeys(earlier.value, last, d);
      match Picked(last, d)
      case Some((c, _)) => FirstOccurrencesSnoc(FiringClients(init, d), c);
      case None =>
    }
  }

  /**
   Each client's table lists its tasks in the order in which their first
   firing section appears in the file.
   */
  lemma {:induction false} GetTasksTaskOrder(config: Config, d: Date, client: string)
    requires GetTasksForDate(config, d).Ok?
    ensures Keys(TasksOf(GetTasksForDate(config, d).value, client)) == FirstOccurrences(FiringTasks(config, d, client))
    decreases |config|
  {
    if |config| > 0 {
      var init := config[..|config| - 1];
      var last := config[|config| - 1];
      var earlier := GetTasksForDate(init, d);
      assert earlier.Ok? && GetTasksForDate(config, d) == AddSection(earlier.value, last, d);
      GetTasksTaskOrder(init, d, client);
      AddSectionTaskKeys(earlier.value, last, d, client);
      match Picked(last, d)
      case Some((c, t)) =>
        if c == client {
          FirstOccurrencesSnoc(FiringTasks(init, d, client), t);
        }
      case None =>
    }
  }

  /** Assigning a good table to a client keeps a report well grouped. */
  lemma PutTableWellGrouped(report: Report, client: string, table: TaskTable)
    requires WellGrouped(report) && GoodTable(table)
    ensures WellGrouped(Put(report, client, table))
  {
    PutDistinct(report, client, table);
    PutAll(report, client, table, GoodTable);
  }

  /** The table of a client in a well-grouped report has no task twice. */
  lemma TasksOfDistinct(report: Report, client: string)
    requires WellGrouped(report)
    ensures DistinctKeys(TasksOf(report, client))
  {
    if client in Keys(report) {
      var i :| 0 <= i < |report| && report[i] == (client, TasksOf(report, client));
      assert GoodTable(report[i].1);
    }
  }

  /** Adding a firing task keeps a report well grouped. */
  lemma AddSectionWellGrouped(report: Report, section: Section, d: Date)
    requires WellGrouped(report)
    requires AddSection(report, section, d).Ok?
    ensures WellGrouped(AddSection(report, section, d).value)
  {
    var r := AddSection(report, section, d).value;
    if r != report {
      var (client, task) := SectionKey(section.name).value;
      var before := TasksOf(report, client);
      var table := Put(before, task, section.options);
      assert r == Put(report, client, table);
      TasksOfDistinct(report, client);
      PutDistinct(before, task, section.options);
      assert task in Keys(table);
      PutTableWellGrouped(report, client, table);
    }
  }

  /** A turn of the loop sees the date only through its weekday and day of the month. */
  lemma AddSectionSameDay(report: Report, section: Section, d1: Date, d2: Date)
    ensures Weekday(d1) == Weekday(d2) && DayOfMonth(d1) == DayOfMonth(d2) ==>
      AddSection(report, section, d1) == AddSection(report, section, d2)
  {
    ShouldRunTaskSameDay(ScheduleOf(section.options), d1, d2);
  }

  /**
   Two dates with the same weekday and the same day of the month select the
   same tasks, and raise the same error.
   */
  lemma {:induction false} GetTasksSameDay(config: Config, d1: Date, d2: Date)
    ensures Weekday(d1) == Weekday(d2) && DayOfMonth(d1) == DayOfMonth(d2) ==>
      GetTasksForDate(config, d1) == GetTasksForDate(config, d2)
    decreases |config|
  {
    if |config| > 0 && Weekday(d1) == Weekday(d2) && DayOfMonth(d1) == DayOfMonth(d2) {
      var init, last := config[..|config| - 1], config[|config| - 1];
      GetTasksSameDay(init, d1, d2);
      match GetTasksForDate(init, d1)
      case Err(_) =>
      case Ok(report) =>
        AddSectionSameDay(report, last, d1, d2);
        assert AddStep(d1)(report, last) == AddStep(d2)(report, last);
    }
  }
}
