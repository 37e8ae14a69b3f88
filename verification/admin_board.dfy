/** The administrator's project table (`src/components/AdminDashboard.jsx`): the
    project list, the open row menu, the edit and delete dialogs, and the project
    the open dialog works on. */
module AdminBoard {
  import opened Basics
  import Seqs
  import Projects

  type Project = Projects.Project

  datatype Board = Board(
    projects: seq<Project>, openMenu: Option<int>, editOpen: bool, deleteOpen: bool, selected: Option<Project>)

  /** The table as first shown: the given projects, no menu, no dialog. */
  function Init(projects: seq<Project>): (r: Board)
    ensures r.projects == projects && r.openMenu.None? && r.selected.None?
    ensures !r.editOpen && !r.deleteOpen
  {
    Board(projects, None, false, false, None)
  }

  /** Project ids are distinct. */
  ghost predicate Valid(b: Board) {
    Seqs.DistinctKeys(b.projects, Projects.IdOf)
  }

  /** A row's menu button: closes that row's menu when it is the open one and
      otherwise opens it, closing any other; nothing else changes. */
  function ToggleMenu(b: Board, id: int): (r: Board)
    ensures r.openMenu == Some(id) <==> b.openMenu != Some(id)
    ensures r.openMenu.None? <==> b.openMenu == Some(id)
    ensures r.(openMenu := b.openMenu) == b
  {
    b.(openMenu := Projects.ToggleMenu(b.openMenu, id))
  }

  /** Clicking the same menu button twice restores the board exactly when no other
      row's menu was open before. */
  lemma ToggleMenuTwice(b: Board, id: int)
    ensures ToggleMenu(ToggleMenu(b, id), id) == b <==> b.openMenu.None? || b.openMenu == Some(id)
  {
    if ToggleMenu(ToggleMenu(b, id), id) == b {
      assert ToggleMenu(ToggleMenu(b, id), id).openMenu == b.openMenu;
    }
  }

  /** The menu's Update entry: remember the project, open the edit dialog, close
      the menu. */
  function OpenEdit(b: Board, p: Project): (r: Board)
    ensures r.selected == Some(p) && r.editOpen && r.openMenu.None?
    ensures r.projects == b.projects && r.deleteOpen == b.deleteOpen
  {
    b.(selected := Some(p), editOpen := true, openMenu := None)
  }

  /** The menu's Delete entry: remember the project, open the confirmation, close
      the menu. */
  function OpenDelete(b: Board, p: Project): (r: Board)
    ensures r.selected == Some(p) && r.deleteOpen && r.openMenu.None?
    ensures r.projects == b.projects && r.editOpen == b.editOpen
  {
    b.(selected := Some(p), deleteOpen := true, openMenu := None)
  }

  function ReplaceIfSameId(updated: Project): Project -> Project {
    (p: Project) => if p.id == updated.id then updated else p
  }

  /** `handleSave`: the edited project replaces every project with its id; the
      dialog closes and the selection is cleared. */
  function HandleSave(b: Board, updated: Project): (r: Board)
    ensures |r.projects| == |b.projects|
    ensures forall i :: 0 <= i < |b.projects| ==>
      r.projects[i] == (if b.projects[i].id == updated.id then updated else b.projects[i])
    ensures !r.editOpen && r.selected.None?
    ensures r.openMenu == b.openMenu && r.deleteOpen == b.deleteOpen
  {
    b.(projects := Seqs.Map(b.projects, ReplaceIfSameId(updated)), editOpen := false, selected := None)
  }

  /** Saving keeps every row's id, so the ids stay distinct, and the edited
      project is in the table afterwards exactly when its id was. */
  lemma SaveKeepsIds(b: Board, updated: Project)
    requires Valid(b)
    ensures Valid(HandleSave(b, updated))
    ensures updated in HandleSave(b, updated).projects <==>
      exists i :: 0 <= i < |b.projects| && b.projects[i].id == updated.id
  {
    var r := HandleSave(b, updated);
    assert forall i :: 0 <= i < |r.projects| ==> Projects.IdOf(r.projects[i]) == Projects.IdOf(b.projects[i]);
    if updated in r.projects {
      var i :| 0 <= i < |r.projects| && r.projects[i] == updated;
      assert b.projects[i].id == updated.id;
    }
    if exists i :: 0 <= i < |b.projects| && b.projects[i].id == updated.id {
      var i :| 0 <= i < |b.projects| && b.projects[i].id == updated.id;
      assert r.projects[i] == updated;
    }
  }

  function WithoutId(id: int): Project -> bool {
    (p: Project) => p.id != id
  }

  /** `handleConfirmDelete`: without a selected project nothing happens; otherwise
      the projects with its id go, the others stay in order, and the dialog closes
      and forgets the project. */
  function HandleConfirmDelete(b: Board): (r: Board)
    ensures b.selected.None? ==> r == b
    ensures b.selected.Some? ==>
      && Seqs.IsSubseq(r.projects, b.projects)
      && (forall p :: p in r.projects <==> p in b.projects && p.id != b.selected.value.id)
      && !r.deleteOpen && r.selected.None?
      && r.openMenu == b.openMenu && r.editOpen == b.editOpen
  {
    match b.selected
    case None => b
    case Some(p) =>
      b.(projects := Seqs.Filter(b.projects, WithoutId(p.id)), deleteOpen := false, selected := None)
  }

  /** With distinct ids a confirmed delete removes exactly one project when the
      selected id is in the table, and none otherwise. */
  lemma ConfirmDeleteRemovesOne(b: Board)
    requires Valid(b) && b.selected.Some?
    ensures |HandleConfirmDelete(b).projects| ==
      if exists i :: 0 <= i < |b.projects| && b.projects[i].id == b.selected.value.id
      then |b.projects| - 1 else |b.projects|
  {
    var id := b.selected.value.id;
    Seqs.FilterOutKey(b.projects, Projects.IdOf, id, WithoutId(id));
  }

  /** Closing the edit dialog: it closes and forgets the project. */
  function CancelEdit(b: Board): (r: Board)
    ensures !r.editOpen && r.selected.None?
    ensures r.projects == b.projects && r.openMenu == b.openMenu && r.deleteOpen == b.deleteOpen
  {
    b.(editOpen := false, selected := None)
  }

  /** Closing the delete confirmation: it closes and forgets the project. */
  function CancelDelete(b: Board): (r: Board)
    ensures !r.deleteOpen && r.selected.None?
    ensures r.projects == b.projects && r.openMenu == b.openMenu && r.editOpen == b.editOpen
  {
    b.(deleteOpen := false, selected := None)
  }

  datatype Event =
    | MenuClicked(id: int)
    | UpdateChosen(project: Project)
    | DeleteChosen(project: Project)
    | Saved(updated: Project)
    | DeleteConfirmed
    | EditCancelled
    | DeleteCancelled

  function Step(b: Board, e: Event): Board {
    match e
    case MenuClicked(id) => ToggleMenu(b, id)
    case UpdateChosen(p) => OpenEdit(b, p)
    case DeleteChosen(p) => OpenDelete(b, p)
    case Saved(p) => HandleSave(b, p)
    case DeleteConfirmed => HandleConfirmDelete(b)
    case EditCancelled => CancelEdit(b)
    case DeleteCancelled => CancelDelete(b)
  }

  /** Whatever the administrator does, project ids stay distinct. */
  lemma StepPreservesValid(b: Board, e: Event)
    requires Valid(b)
    ensures Valid(Step(b, e))
  {
    match e
    case Saved(p) => SaveKeepsIds(b, p);
    case DeleteConfirmed =>
      if b.selected.Some? {
        Seqs.FilterKeysDistinct(b.projects, WithoutId(b.selected.value.id), Projects.IdOf);
      }
    case _ =>
  }
}
