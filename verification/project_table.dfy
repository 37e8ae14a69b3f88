/** The read-only project table (`src/components/Dashboard.jsx`): its only state is
    the open row menu; the menu's two entries announce the action and close the
    menu without touching the projects, which belong to the caller. */
module ProjectTable {
  import opened Basics
  import Projects

  /** What a menu entry produces: the new menu state and the alert text. */
  datatype Outcome = Outcome(openMenu: Option<int>, alert: string)

  /** `handleUpdate(project)`. */
  function HandleUpdate(openMenu: Option<int>, p: Projects.Project): (r: Outcome)
    ensures r.openMenu.None?
    ensures r.alert == "Update: " + p.name
  {
    Outcome(None, "Update: " + p.name)
  }

  /** `handleDelete(project)`. */
  function HandleDelete(openMenu: Option<int>, p: Projects.Project): (r: Outcome)
    ensures r.openMenu.None?
    ensures r.alert == "Delete: " + p.name
  {
    Outcome(None, "Delete: " + p.name)
  }

  datatype Event = MenuClicked(id: int) | UpdateChosen(project: Projects.Project) | DeleteChosen(project: Projects.Project)

  /** The menu state after an event. */
  function Step(openMenu: Option<int>, e: Event): Option<int> {
    match e
    case MenuClicked(id) => Projects.ToggleMenu(openMenu, id)
    case UpdateChosen(p) => HandleUpdate(openMenu, p).openMenu
    case DeleteChosen(p) => HandleDelete(openMenu, p).openMenu
  }

  /** After any event the menu is closed or belongs to the row just clicked: an
      Update or Delete always closes it, and a click never opens another row's menu. */
  lemma StepOpensOnlyClickedRow(openMenu: Option<int>, e: Event)
    ensures Step(openMenu, e).None? || (e.MenuClicked? && Step(openMenu, e) == Some(e.id))
    ensures !e.MenuClicked? ==> Step(openMenu, e).None?
  {
  }
}
