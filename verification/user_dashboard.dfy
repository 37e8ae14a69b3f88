/** The user's dashboard (`src/pages/UserDashboard.jsx`): three counters over the
    project list, the list of active projects, and the team-size line. */
module UserDashboard {
  import Seqs
  import Projects

  type Project = Projects.Project

  /** `projects.filter(p).length`: the number of projects satisfying `p`. It is 0
      exactly when none does and the whole length exactly when all do. */
  function Count(projects: seq<Project>, p: Project -> bool): (r: nat)
    ensures r <= |projects|
    ensures r == 0 <==> forall i :: 0 <= i < |projects| ==> !p(projects[i])
    ensures r == |projects| <==> forall i :: 0 <= i < |projects| ==> p(projects[i])
  {
    FilterLengthExtremes(projects, p);
    |Seqs.Filter(projects, p)|
  }

  lemma FilterLengthExtremes(projects: seq<Project>, p: Project -> bool)
    ensures |Seqs.Filter(projects, p)| == 0 <==> forall i :: 0 <= i < |projects| ==> !p(projects[i])
    ensures |Seqs.Filter(projects, p)| == |projects| <==> forall i :: 0 <= i < |projects| ==> p(projects[i])
  {
    var f := Seqs.Filter(projects, p);
    if |f| == |projects| {
      Seqs.SubseqSameLength(f, projects);
    }
    if |f| > 0 {
      assert f[0] in f;
    }
  }

  /** Counting one project at a time: none for no projects, and one more for each
      project that passes. */
  lemma CountAppend(projects: seq<Project>, x: Project, p: Project -> bool)
    ensures Count([], p) == 0
    ensures Count(projects + [x], p) == Count(projects, p) + (if p(x) then 1 else 0)
  {
    Seqs.FilterAppend(projects, x, p);
  }

  function HasStatus(status: string): Project -> bool {
    (p: Project) => p.status == status
  }

  function NotDone(): Project -> bool {
    (p: Project) => p.status != "Done"
  }

  function IsActive(): Project -> bool {
    (p: Project) => p.status == "In Progress" || p.status == "Paused"
  }

  /** Every project passes. */
  function AnyProject(): Project -> bool {
    (p: Project) => true
  }

  /** `projects.length`: the count of projects under a filter that keeps them all,
      so no counter over the projects exceeds it. */
  function TotalProjects(projects: seq<Project>): (r: nat)
    ensures r == Count(projects, AnyProject())
    ensures forall p :: Count(projects, p) <= r
  {
    |projects|
  }

  /** Projects in progress: none exactly when no project is in progress. */
  function ActiveProjects(projects: seq<Project>): (r: nat)
    ensures r <= |projects|
    ensures r == 0 <==> forall i :: 0 <= i < |projects| ==> projects[i].status != "In Progress"
    ensures r == |projects| <==> forall i :: 0 <= i < |projects| ==> projects[i].status == "In Progress"
  {
    Count(projects, HasStatus("In Progress"))
  }

  /** Projects not yet done: none exactly when every project is done. */
  function PendingProjects(projects: seq<Project>): (r: nat)
    ensures r <= |projects|
    ensures r == 0 <==> forall i :: 0 <= i < |projects| ==> projects[i].status == "Done"
    ensures r == |projects| <==> forall i :: 0 <= i < |projects| ==> projects[i].status != "Done"
  {
    Count(projects, NotDone())
  }

  /** The three counters one project at a time: adding a project adds one to the
      total, one to the in-progress count when it is in progress, and one to the
      pending count when it is not done. */
  lemma CountersAppend(projects: seq<Project>, x: Project)
    ensures TotalProjects([]) == 0 && ActiveProjects([]) == 0 && PendingProjects([]) == 0
    ensures TotalProjects(projects + [x]) == TotalProjects(projects) + 1
    ensures ActiveProjects(projects + [x]) == ActiveProjects(projects) + (if x.status == "In Progress" then 1 else 0)
    ensures PendingProjects(projects + [x]) == PendingProjects(projects) + (if x.status != "Done" then 1 else 0)
  {
    CountAppend(projects, x, HasStatus("In Progress"));
    CountAppend(projects, x, NotDone());
  }

  /** The projects shown as active: those in progress or paused, in list order. */
  function ActiveProjectList(projects: seq<Project>): (r: seq<Project>)
    ensures Seqs.IsSubseq(r, projects)
    ensures forall p :: p in r <==> p in projects && (p.status == "In Progress" || p.status == "Paused")
    ensures forall p :: multiset(r)[p] == if p.status == "In Progress" || p.status == "Paused" then multiset(projects)[p] else 0
    ensures |r| >= ActiveProjects(projects)
  {
    FilterMonotone(projects, HasStatus("In Progress"), IsActive());
    Seqs.Filter(projects, IsActive())
  }

  /** A weaker condition keeps at least as many elements. */
  lemma {:induction false} FilterMonotone(s: seq<Project>, p: Project -> bool, q: Project -> bool)
    requires forall x :: p(x) ==> q(x)
    ensures |Seqs.Filter(s, p)| <= |Seqs.Filter(s, q)|
    decreases |s|
  {
    if |s| > 0 {
      FilterMonotone(s[1..], p, q);
    }
  }

  /** The counters are ordered: in progress <= not done <= all. */
  lemma CountersOrdered(projects: seq<Project>)
    ensures ActiveProjects(projects) <= PendingProjects(projects) <= TotalProjects(projects)
  {
    FilterMonotone(projects, HasStatus("In Progress"), NotDone());
  }

  /** The plural ending of "member": none for exactly one member. */
  function PluralSuffix(members: int): (r: string)
    ensures r == "" <==> members == 1
    ensures r != "" ==> r == "s"
  {
    if members != 1 then "s" else ""
  }

  /** The badge colour (`getStatusBadgeClass`) is the shared project status colour. */
  function StatusBadgeClass(status: string): (r: string)
    ensures r == Projects.DoneClass <==> status == "Done"
    ensures r == Projects.InProgressClass <==> status == "In Progress"
    ensures r == Projects.PausedClass <==> status == "Paused"
    ensures r == Projects.BacklogClass <==> status == "Backlog"
    ensures r == Projects.DefaultClass <==> status !in ["Done", "In Progress", "Paused", "Backlog"]
  {
    Projects.StatusClass(status)
  }
}
