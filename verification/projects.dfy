/** The project record the dashboards show, the status badge colours they share
    (`getStatusClass` in `src/components/AdminDashboard.jsx` and
    `src/components/Dashboard.jsx`, `getStatusBadgeClass` in
    `src/pages/UserDashboard.jsx`: three identical copies), and the row-menu state
    both project tables keep: the id of the one row whose menu is open, if any. */
module Projects {
  import opened Basics
  import Seqs

  datatype Project = Project(
    id: int, name: string, status: string, about: string, members: int, progress: int, url: string)

  const DoneClass := "bg-emerald-50 text-emerald-700"
  const InProgressClass := "bg-sky-50 text-sky-700"
  const PausedClass := "bg-amber-50 text-amber-700"
  const BacklogClass := "bg-rose-50 text-rose-700"
  const DefaultClass := "bg-slate-100 text-slate-700"

  /** The badge colour of a project status: one colour for each of the four known
      statuses and a neutral one for anything else. */
  function StatusClass(status: string): (r: string)
    ensures r == DoneClass <==> status == "Done"
    ensures r == InProgressClass <==> status == "In Progress"
    ensures r == PausedClass <==> status == "Paused"
    ensures r == BacklogClass <==> status == "Backlog"
    ensures r == DefaultClass <==> status !in ["Done", "In Progress", "Paused", "Backlog"]
  {
    match status
    case "Done" => DoneClass
    case "In Progress" => InProgressClass
    case "Paused" => PausedClass
    case "Backlog" => BacklogClass
    case _ => DefaultClass
  }

  /** Two statuses share a colour exactly when they are equal or both unknown. */
  lemma StatusClassSeparates(a: string, b: string)
    ensures StatusClass(a) == StatusClass(b) <==>
      a == b || (a !in ["Done", "In Progress", "Paused", "Backlog"] && b !in ["Done", "In Progress", "Paused", "Backlog"])
  {
  }

  /** `toggleMenu(id)`: clicking a row's menu button closes that row's menu when it
      is the open one and otherwise opens it, closing any other. */
  function ToggleMenu(open: Option<int>, id: int): (r: Option<int>)
    ensures r == Some(id) <==> open != Some(id)
    ensures r.None? <==> open == Some(id)
  {
    if open == Some(id) then None else Some(id)
  }

  /** Clicking the same button twice restores the menu state exactly when no other
      row's menu was open before. */
  lemma ToggleMenuTwice(open: Option<int>, id: int)
    ensures ToggleMenu(ToggleMenu(open, id), id) == open <==> open.None? || open == Some(id)
  {
  }

  function IdOf(p: Project): int {
    p.id
  }

  /** Whether row `i` of the table shows its menu: `openMenuId === project.id`. */
  predicate MenuShown(open: Option<int>, projects: seq<Project>, i: int)
    requires 0 <= i < |projects|
  {
    open == Some(projects[i].id)
  }

  /** With distinct project ids at most one row shows its menu, and it is the row of
      the open id. */
  lemma AtMostOneMenu(open: Option<int>, projects: seq<Project>, i: int, j: int)
    requires Seqs.DistinctKeys(projects, IdOf)
    requires 0 <= i < |projects| && 0 <= j < |projects|
    requires MenuShown(open, projects, i) && MenuShown(open, projects, j)
    ensures i == j
    ensures open == Some(projects[i].id)
  {
    assert IdOf(projects[i]) == IdOf(projects[j]);
  }
}
