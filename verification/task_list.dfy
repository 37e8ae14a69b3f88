/** The task list (`src/pages/MyTasks.jsx`): the tasks assigned to the signed-in
    user, narrowed by three drop-down filters (status, project, priority) and
    sorted by a chosen column in a chosen direction. Projects are looked up by id
    in an index built from the project list. */
module TaskList {
  import opened Basics
  import Text
  import Seqs
  import Sorting
  import Projects

  type Project = Projects.Project

  datatype Task = Task(
    key: string, title: string, projectId: int, status: string, priority: string,
    firstResponse: string, assignee: string)

  /** `projectById.get(id)`: the index is built by setting each project under its
      id in list order, so the last project with that id wins. */
  function ProjectById(projects: seq<Project>, id: int): (r: Option<Project>)
    ensures r.None? <==> forall i :: 0 <= i < |projects| ==> projects[i].id != id
    ensures r.Some? ==> exists i :: 0 <= i < |projects| && projects[i] == r.value && r.value.id == id
                                   && forall j :: i < j < |projects| ==> projects[j].id != id
  {
    if |projects| == 0 then None
    else
      var last := projects[|projects| - 1];
      if last.id == id then Some(last)
      else
        var init := projects[..|projects| - 1];
        var r := ProjectById(init, id);
        if r.Some? then
          var i :| 0 <= i < |init| && init[i] == r.value && r.value.id == id
                   && forall j :: i < j < |init| ==> init[j].id != id;
          assert projects[i] == r.value;
          r
        else r
  }

  /** `localStorage.getItem("username") || CURRENT_USER`: a stored non-empty user
      name wins; otherwise the user name saved at sign-in, if any. */
  function CurrentUser(storedUsername: Option<string>, signedIn: Option<string>): (r: Option<string>)
    ensures storedUsername.Some? && storedUsername.value != "" ==> r == storedUsername
    ensures storedUsername.None? || storedUsername.value == "" ==> r == signedIn
  {
    if storedUsername.Some? && storedUsername.value != "" then storedUsername else signedIn
  }

  function AssignedTo(user: Option<string>): Task -> bool {
    (t: Task) => user == Some(t.assignee)
  }

  /** `myTasks`: the tasks assigned to the current user, in list order; none when
      nobody is signed in. */
  function MyTasks(tasks: seq<Task>, user: Option<string>): (r: seq<Task>)
    ensures Seqs.IsSubseq(r, tasks)
    ensures forall t :: t in r <==> t in tasks && user == Some(t.assignee)
    ensures forall t :: multiset(r)[t] == if user == Some(t.assignee) then multiset(tasks)[t] else 0
    ensures user.None? ==> r == []
  {
    Seqs.Filter(tasks, AssignedTo(user))
  }

  const AllOption := "All"

  function StatusOf(t: Task): string {
    t.status
  }

  function PriorityOf(t: Task): string {
    t.priority
  }

  function ProjectIdOf(t: Task): int {
    t.projectId
  }

  /** A filter's choices: "All", then each value occurring among the tasks, once,
      in the order of first occurrence. */
  function Options(values: seq<string>): (r: seq<string>)
    ensures |r| > 0 && r[0] == AllOption
    ensures forall v :: v in r[1..] <==> v in values
    ensures Seqs.NoDups(r[1..])
    ensures forall i, j :: 1 <= i < j < |r| ==> Seqs.FirstIndex(values, r[i]) < Seqs.FirstIndex(values, r[j])
  {
    var d := Seqs.Distinct(values);
    assert ([AllOption] + d)[1..] == d;
    [AllOption] + d
  }

  /** The status filter's choices: "All", then each status some task has, once, in
      the order the statuses first occur. */
  function StatusOptions(myTasks: seq<Task>): (r: seq<string>)
    ensures |r| > 0 && r[0] == AllOption && Seqs.NoDups(r[1..])
    ensures forall st :: st in r[1..] <==> exists i :: 0 <= i < |myTasks| && myTasks[i].status == st
    ensures forall i :: 1 <= i < |r| ==> r[i] in Seqs.Map(myTasks, StatusOf)
    ensures forall i, j :: 1 <= i < j < |r| ==>
      Seqs.FirstIndex(Seqs.Map(myTasks, StatusOf), r[i]) < Seqs.FirstIndex(Seqs.Map(myTasks, StatusOf), r[j])
  {
    var vs := Seqs.Map(myTasks, StatusOf);
    assert forall st :: st in vs <==> exists i :: 0 <= i < |myTasks| && myTasks[i].status == st by {
      forall st | st in vs ensures exists i :: 0 <= i < |myTasks| && myTasks[i].status == st {
        var i :| 0 <= i < |vs| && vs[i] == st;
      }
    }
    Options(vs)
  }

  /** The priority filter's choices: "All", then each priority some task has, once,
      in the order the priorities first occur. */
  function PriorityOptions(myTasks: seq<Task>): (r: seq<string>)
    ensures |r| > 0 && r[0] == AllOption && Seqs.NoDups(r[1..])
    ensures forall pr :: pr in r[1..] <==> exists i :: 0 <= i < |myTasks| && myTasks[i].priority == pr
    ensures forall i :: 1 <= i < |r| ==> r[i] in Seqs.Map(myTasks, PriorityOf)
    ensures forall i, j :: 1 <= i < j < |r| ==>
      Seqs.FirstIndex(Seqs.Map(myTasks, PriorityOf), r[i]) < Seqs.FirstIndex(Seqs.Map(myTasks, PriorityOf), r[j])
  {
    var vs := Seqs.Map(myTasks, PriorityOf);
    assert forall pr :: pr in vs <==> exists i :: 0 <= i < |myTasks| && myTasks[i].priority == pr by {
      forall pr | pr in vs ensures exists i :: 0 <= i < |myTasks| && myTasks[i].priority == pr {
        var i :| 0 <= i < |vs| && vs[i] == pr;
      }
    }
    Options(vs)
  }

  /** An id the project index knows. */
  function Resolves(projects: seq<Project>): int -> bool {
    (id: int) => ProjectById(projects, id).Some?
  }

  /** The name of the project with this id, or "" for an unknown id. */
  function NameOfId(projects: seq<Project>): int -> string {
    (id: int) => var p := ProjectById(projects, id); if p.Some? then p.value.name else ""
  }

  /** The names of the projects with these ids, skipping ids no project has. */
  function ResolvedNames(ids: seq<int>, projects: seq<Project>): (r: seq<string>)
    ensures |r| <= |ids|
    ensures forall n :: n in r <==> exists i :: 0 <= i < |ids| && ProjectById(projects, ids[i]).Some?
                                                 && ProjectById(projects, ids[i]).value.name == n
  {
    if |ids| == 0 then []
    else
      var rest := ResolvedNames(ids[1..], projects);
      var p := ProjectById(projects, ids[0]);
      assert forall i :: 0 < i < |ids| ==> ids[i] == ids[1..][i - 1];
      assert forall i :: 0 <= i < |ids| - 1 ==> ids[1..][i] == ids[i + 1];
      if p.Some? then [p.value.name] + rest else rest
  }

  /** `ids.map(id => projectById.get(id)).filter(Boolean).map(p => p.name)`: the
      names come in the order of their ids, one per id the index knows. */
  lemma {:induction false} ResolvedNamesInOrder(ids: seq<int>, projects: seq<Project>)
    ensures ResolvedNames(ids, projects) == Seqs.Map(Seqs.Filter(ids, Resolves(projects)), NameOfId(projects))
    decreases |ids|
  {
    if |ids| > 0 {
      ResolvedNamesInOrder(ids[1..], projects);
      Seqs.FilterCons(ids, Resolves(projects));
      if ProjectById(projects, ids[0]).Some? {
        Seqs.MapPrepend(ids[0], Seqs.Filter(ids[1..], Resolves(projects)), NameOfId(projects));
      }
    }
  }

  /** The project filter's choices: "All", then the names of the distinct projects
      of the tasks (in first-occurrence order of their ids) that the index knows. */
  function ProjectOptions(myTasks: seq<Task>, projects: seq<Project>): (r: seq<string>)
    ensures |r| > 0 && r[0] == AllOption
    ensures forall n :: n in r[1..] <==> exists t :: t in myTasks && ProjectById(projects, t.projectId).Some?
                                                   && ProjectById(projects, t.projectId).value.name == n
    ensures r[1..] == Seqs.Map(Seqs.Filter(Seqs.Distinct(Seqs.Map(myTasks, ProjectIdOf)), Resolves(projects)), NameOfId(projects))
  {
    var names := ResolvedNames(Seqs.Distinct(Seqs.Map(myTasks, ProjectIdOf)), projects);
    ResolvedNamesInOrder(Seqs.Distinct(Seqs.Map(myTasks, ProjectIdOf)), projects);
    assert ([AllOption] + names)[1..] == names;
    ProjectNamesOfTasks(myTasks, projects);
    [AllOption] + names
  }

  /** A name is offered exactly when some task's project id resolves to a project
      with that name. */
  lemma ProjectNamesOfTasks(myTasks: seq<Task>, projects: seq<Project>)
    ensures forall n :: n in ResolvedNames(Seqs.Distinct(Seqs.Map(myTasks, ProjectIdOf)), projects) <==>
      exists t :: t in myTasks && ProjectById(projects, t.projectId).Some? && ProjectById(projects, t.projectId).value.name == n
  {
    var ids := Seqs.Distinct(Seqs.Map(myTasks, ProjectIdOf));
    var names := ResolvedNames(ids, projects);
    forall n | n in names
      ensures exists t :: t in myTasks && ProjectById(projects, t.projectId).Some? && ProjectById(projects, t.projectId).value.name == n
    {
      var i :| 0 <= i < |ids| && ProjectById(projects, ids[i]).Some? && ProjectById(projects, ids[i]).value.name == n;
      assert ids[i] in Seqs.Map(myTasks, ProjectIdOf);
      var k :| 0 <= k < |myTasks| && Seqs.Map(myTasks, ProjectIdOf)[k] == ids[i];
      assert myTasks[k] in myTasks;
    }
    forall t | t in myTasks && ProjectById(projects, t.projectId).Some?
      ensures ProjectById(projects, t.projectId).value.name in names
    {
      var k :| 0 <= k < |myTasks| && myTasks[k] == t;
      assert Seqs.Map(myTasks, ProjectIdOf)[k] == t.projectId;
      assert t.projectId in ids;
      var i :| 0 <= i < |ids| && ids[i] == t.projectId;
    }
  }

  /** The three drop-downs. */
  datatype Filters = Filters(status: string, project: string, priority: string)

  const ShowAll := Filters(AllOption, AllOption, AllOption)

  /** A task passes when each drop-down is "All" or matches it; a chosen project
      matches only a task whose project id is known to the index. */
  predicate Matches(t: Task, f: Filters, projects: seq<Project>) {
    && (f.status == AllOption || t.status == f.status)
    && (f.project == AllOption ||
        (ProjectById(projects, t.projectId).Some? && ProjectById(projects, t.projectId).value.name == f.project))
    && (f.priority == AllOption || t.priority == f.priority)
  }

  function Matcher(f: Filters, projects: seq<Project>): Task -> bool {
    (t: Task) => Matches(t, f, projects)
  }

  datatype Direction = Asc | Desc

  datatype SortConfig = SortConfig(key: string, direction: Direction)

  /** The list starts sorted by task key, ascending. */
  const InitialSort := SortConfig("key", Asc)

  /** The columns the list can be sorted by. */
  const SortKeys: seq<string> := ["key", "title", "project", "status", "firstResponse"]

  /** The text a task is sorted by for column `key`: the project column uses the
      project's name (empty when the project is unknown or unnamed), and an unknown
      column gives every task the empty text. */
  function SortValue(t: Task, key: string, projects: seq<Project>): (r: string)
    ensures key == "key" ==> r == t.key
    ensures key == "title" ==> r == t.title
    ensures key == "project" ==> ProjectById(projects, t.projectId).Some? ==> r == ProjectById(projects, t.projectId).value.name
    ensures key == "project" ==> ProjectById(projects, t.projectId).None? ==> r == ""
    ensures key == "status" ==> r == t.status
    ensures key == "firstResponse" ==> r == t.firstResponse
    ensures key !in SortKeys ==> r == ""
  {
    match key
    case "key" => t.key
    case "title" => t.title
    case "project" => (var p := ProjectById(projects, t.projectId); if p.Some? then p.value.name else "")
    case "status" => t.status
    case "firstResponse" => t.firstResponse
    case _ => ""
  }

  /** The comparator: -1, 0 or 1 from the two sort values under `<` and `>`,
      negated for descending order. */
  function Compare(a: Task, b: Task, cfg: SortConfig, projects: seq<Project>): (r: int)
    ensures r in {-1, 0, 1}
    ensures r == 0 <==> SortValue(a, cfg.key, projects) == SortValue(b, cfg.key, projects)
    ensures r <= 0 <==> if cfg.direction == Asc then !Text.Less(SortValue(b, cfg.key, projects), SortValue(a, cfg.key, projects))
                        else !Text.Less(SortValue(a, cfg.key, projects), SortValue(b, cfg.key, projects))
  {
    var va := SortValue(a, cfg.key, projects);
    var vb := SortValue(b, cfg.key, projects);
    LessTrichotomy(va, vb);
    if Text.Less(va, vb) then (if cfg.direction == Asc then -1 else 1)
    else if Text.Less(vb, va) then (if cfg.direction == Asc then 1 else -1)
    else 0
  }

  /** Of two texts exactly one is smaller, unless they are equal. */
  lemma LessTrichotomy(a: string, b: string)
    ensures a == b <==> !Text.Less(a, b) && !Text.Less(b, a)
    ensures Text.Less(a, b) ==> !Text.Less(b, a)
  {
    if Text.Less(a, b) {
      Text.LessAsymmetric(a, b);
    }
    if a != b {
      Text.LessTotal(a, b);
    } else {
      Text.LessIrreflexive(a);
    }
  }

  /** "The comparator lets `a` stay before `b`." */
  function TaskLe(cfg: SortConfig, projects: seq<Project>): (Task, Task) -> bool {
    (a: Task, b: Task) => Compare(a, b, cfg, projects) <= 0
  }

  /** `processedTasks`: the matching tasks, sorted. */
  function ProcessTasks(myTasks: seq<Task>, f: Filters, cfg: SortConfig, projects: seq<Project>): (r: seq<Task>)
    ensures multiset(r) == multiset(Seqs.Filter(myTasks, Matcher(f, projects)))
    ensures forall t :: t in r <==> t in myTasks && Matches(t, f, projects)
  {
    var r := Sorting.InsertionSort(Seqs.Filter(myTasks, Matcher(f, projects)), TaskLe(cfg, projects));
    assert forall t :: t in r <==> t in multiset(r);
    r
  }

  /** With every filter on "All" the list holds every one of the user's tasks, each
      as often as it occurs. */
  lemma ShowAllKeepsEveryTask(myTasks: seq<Task>, cfg: SortConfig, projects: seq<Project>)
    ensures multiset(ProcessTasks(myTasks, ShowAll, cfg, projects)) == multiset(myTasks)
  {
  }

  /** The comparator describes a consistent order, whichever column and direction. */
  lemma TaskLeIsPreorder(cfg: SortConfig, projects: seq<Project>)
    ensures Sorting.TotalPreorder(TaskLe(cfg, projects))
  {
    var le := TaskLe(cfg, projects);
    forall a, b ensures le(a, b) || le(b, a) {
      var va := SortValue(a, cfg.key, projects);
      var vb := SortValue(b, cfg.key, projects);
      if Text.Less(va, vb) {
        Text.LessAsymmetric(va, vb);
      }
    }
    forall a, b, c | le(a, b) && le(b, c) ensures le(a, c) {
      var va := SortValue(a, cfg.key, projects);
      var vb := SortValue(b, cfg.key, projects);
      var vc := SortValue(c, cfg.key, projects);
      OrderTransitive(va, vb, vc, cfg.direction);
    }
  }

  /** "At most" on texts is transitive, in either direction. */
  lemma OrderTransitive(x: string, y: string, z: string, d: Direction)
    ensures d == Asc && !Text.Less(y, x) && !Text.Less(z, y) ==> !Text.Less(z, x)
    ensures d == Desc && !Text.Less(x, y) && !Text.Less(y, z) ==> !Text.Less(x, z)
  {
    if x != y {
      Text.LessTotal(x, y);
    }
    if y != z {
      Text.LessTotal(y, z);
    }
    if Text.Less(z, x) && Text.Less(x, y) {
      Text.LessTransitive(z, x, y);
    }
    if Text.Less(y, z) && Text.Less(x, y) {
      Text.LessTransitive(x, y, z);
    }
    if Text.Less(x, z) && Text.Less(z, y) {
      Text.LessTransitive(x, z, y);
      Text.LessAsymmetric(x, y);
    }
    if Text.Less(y, x) && Text.Less(z, y) {
      Text.LessTransitive(z, y, x);
    }
  }

  /** After sorting, the sort values never decrease going down the list in
      ascending order and never increase in descending order. */
  lemma ProcessedInOrder(myTasks: seq<Task>, f: Filters, cfg: SortConfig, projects: seq<Project>)
    ensures var r := ProcessTasks(myTasks, f, cfg, projects);
      forall i, j :: 0 <= i < j < |r| ==>
        var vi := SortValue(r[i], cfg.key, projects);
        var vj := SortValue(r[j], cfg.key, projects);
        if cfg.direction == Asc then !Text.Less(vj, vi) else !Text.Less(vi, vj)
  {
    TaskLeIsPreorder(cfg, projects);
    Sorting.InsertionSortSorted(Seqs.Filter(myTasks, Matcher(f, projects)), TaskLe(cfg, projects));
  }

  /** Sorting by a column the list does not know leaves the filtered tasks in their
      original order. */
  lemma UnknownKeyKeepsOrder(myTasks: seq<Task>, f: Filters, cfg: SortConfig, projects: seq<Project>)
    requires cfg.key !in SortKeys
    ensures ProcessTasks(myTasks, f, cfg, projects) == Seqs.Filter(myTasks, Matcher(f, projects))
  {
    Sorting.InsertionSortKeepsOrder(Seqs.Filter(myTasks, Matcher(f, projects)), TaskLe(cfg, projects));
  }

  function Flip(d: Direction): Direction {
    if d == Asc then Desc else Asc
  }

  /** `handleSort(key)`: the active column's header flips the direction; another
      column's header makes it the sort column, ascending. */
  function HandleSort(cfg: SortConfig, key: string): (r: SortConfig)
    ensures r.key == key
    ensures cfg.key == key ==> r.direction != cfg.direction
    ensures cfg.key != key ==> r.direction == Asc
  {
    if cfg.key == key then SortConfig(key, Flip(cfg.direction)) else SortConfig(key, Asc)
  }

  /** Clicking the active column twice restores the sort; clicking a new column
      twice sorts it descending. */
  lemma HandleSortTwice(cfg: SortConfig, key: string)
    ensures cfg.key == key ==> HandleSort(HandleSort(cfg, key), key) == cfg
    ensures cfg.key != key ==> HandleSort(HandleSort(cfg, key), key) == SortConfig(key, Desc)
  {
  }

  const UpArrow := "\U{25B2}"
  const DownArrow := "\U{25BC}"

  /** `sortIndicator(key)`: nothing for other columns, an up triangle for an
      ascending and a down triangle for a descending sort. */
  function SortIndicator(cfg: SortConfig, key: string): (r: Option<string>)
    ensures r.None? <==> cfg.key != key
    ensures r == Some(UpArrow) <==> cfg.key == key && cfg.direction == Asc
    ensures r == Some(DownArrow) <==> cfg.key == key && cfg.direction == Desc
  {
    assert UpArrow[0] != DownArrow[0];
    if cfg.key != key then None
    else match cfg.direction
      case Asc => Some(UpArrow)
      case Desc => Some(DownArrow)
  }

  const WaitingClass := "bg-slate-100 text-slate-800"
  const AwaitingApprovalClass := "bg-sky-100 text-sky-700"
  const ApprovedClass := "bg-emerald-100 text-emerald-700"
  const ClosedClass := "bg-rose-100 text-rose-700"
  const OtherStatusClass := "bg-slate-100 text-slate-700"

  const KnownStatuses: seq<string> :=
    ["WAITING FOR SUPPORT", "WAITING FOR RESPONSE", "AWAITING APPROVAL", "APPROVED", "CLOSED"]

  /** `statusChipClass(status)`: both waiting statuses share one chip colour, the
      other three known statuses have their own, anything else a neutral one. */
  function StatusChipClass(status: string): (r: string)
    ensures r == WaitingClass <==> status == "WAITING FOR SUPPORT" || status == "WAITING FOR RESPONSE"
    ensures r == AwaitingApprovalClass <==> status == "AWAITING APPROVAL"
    ensures r == ApprovedClass <==> status == "APPROVED"
    ensures r == ClosedClass <==> status == "CLOSED"
    ensures r == OtherStatusClass <==> status !in KnownStatuses
  {
    match status
    case "WAITING FOR SUPPORT" => WaitingClass
    case "WAITING FOR RESPONSE" => WaitingClass
    case "AWAITING APPROVAL" => AwaitingApprovalClass
    case "APPROVED" => ApprovedClass
    case "CLOSED" => ClosedClass
    case _ => OtherStatusClass
  }

  const HighClass := "text-rose-600"
  const MediumClass := "text-amber-500"
  const LowClass := "text-slate-500"

  /** `priorityClass(priority)`: High and Medium have their own colours; Low and
      every unknown priority share the muted one. */
  function PriorityClass(priority: string): (r: string)
    ensures r == HighClass <==> priority == "High"
    ensures r == MediumClass <==> priority == "Medium"
    ensures r == LowClass <==> priority != "High" && priority != "Medium"
  {
    match priority
    case "High" => HighClass
    case "Medium" => MediumClass
    case "Low" => LowClass
    case _ => LowClass
  }
}
