# deskops portal — a Dafny model of its client-side logic

deskops is a React single-page portal. It has a sign-in screen, a role guard in front of the admin and user areas, project dashboards, an employee table, a personal task list and a file-upload dialog. This project models what those screens compute. It covers the state each screen keeps, how each handler changes that state, and what each derived view (filters, pages, counters, option lists, sort orders) shows. It also proves properties of that behaviour.

Everything is pure functions over immutable datatypes. Browser storage reads, `window.prompt` and `window.confirm` answers, generated ids and the clock are all parameters. JavaScript's value semantics are written out where the screens rely on them:

- `Number()` is a decimal integer parse where `None` is `NaN`.
- `String()` is spelled out.
- `trim` removes the ASCII white space, no-break space (U+00A0) and the byte-order mark (U+FEFF); `toLowerCase` lowers ASCII letters only.
- `<` on strings is lexicographic order.
- `Array.prototype.sort` is a stable insertion sort.
- `Math.ceil` paging is written out.

Modules:

- Shared helpers:
  - `Basics`: option type and min/max.
  - `Text`: trim, ASCII lower-casing, substring test, last segment, string order.
  - `Seqs`: filter, map, subsequence, distinct keys, first-occurrence de-duplication.
  - `Sorting`: insertion sort and its order facts.
  - `JsValues`: JavaScript value coercions.
  - `Paging`: page counts, page slices, previous/next.
- `UploadList` and `PageStrip` model `src/components/UploadModal.jsx`.
- `TaskList` models `src/pages/MyTasks.jsx`.
- `Employees` models `src/components/Users.jsx`.
- `Projects` holds the project record, the status colours and the row menu shared by the dashboards.
- `AdminBoard` models `src/components/AdminDashboard.jsx`.
- `ProjectTable` models `src/components/Dashboard.jsx`.
- `EditForm` models `src/components/EditModal.jsx`.
- `UserDashboard` models `src/pages/UserDashboard.jsx`.
- `Auth` models `src/features/auth/ProtectedRoute.jsx` and `src/features/auth/Login.jsx`.

## Model

| member | source | states |
|---|---|---|
| Text.Trim | src/components/UploadModal.jsx:100 | the trimmed text sits in the input between a white-space prefix and a white-space suffix, neither starts nor ends with white space, and is empty exactly when the input is all white space |
| Text.AfterLast | src/components/UploadModal.jsx:21 | the part after the last separator contains no separator and is a suffix of the input, so `name.split(".").pop()` is the extension |
| Text.LessTotal | src/pages/MyTasks.jsx:133-135 | string comparison is total: two different strings are ordered one way or the other |
| Text.LessTransitive | src/pages/MyTasks.jsx:133-135 | string comparison is transitive, so the comparator orders consistently |
| Seqs.Filter | src/components/UploadModal.jsx:101-105 | `Array.filter` keeps exactly the elements satisfying the test, in order, with their multiplicities, and keeps everything when all pass |
| Seqs.FilterMapCommute | src/components/UploadModal.jsx:124-126 | updating every element under a map that does not change the filter's verdict commutes with filtering |
| Seqs.FilterOutKey | src/components/UploadModal.jsx:141-143 | removing the elements with one key from a list with distinct keys shortens it by one exactly when the key occurs |
| Sorting.InsertionSort | src/pages/MyTasks.jsx:107 | sorting returns a permutation of its input |
| Sorting.InsertionSortSorted | src/pages/MyTasks.jsx:107-136 | under a total preorder the sorted list is ordered by the comparator |
| Sorting.InsertionSortKeepsOrder | src/pages/MyTasks.jsx:107-136 | a comparator that ties every pair leaves the list unchanged, as a stable sort does |
| Sorting.SortByRank | src/components/EditModal.jsx:65-71 | sorting by a three-valued rank lists rank 0, then rank 1, then rank 2, each group in its original order |
| JsValues.ParseNumber | src/components/Users.jsx:43 | `Number("")` and `Number` of blank text are 0 |
| JsValues.ParseIntToString | src/components/Users.jsx:57 | parsing the decimal spelling of an integer gives the integer back |
| JsValues.NumberStringRoundTrip | src/components/EditModal.jsx:55 | `Number(String(n)) == n` for every integer |
| Paging.TotalPages | src/components/UploadModal.jsx:109 | at least one page; the pages hold every item, and the last page is not empty unless there are no items |
| Paging.PageInRangeNotEmpty | src/components/UploadModal.jsx:110-112 | for a page in range the slice starts inside the list and is empty only for an empty list |
| Paging.ItemOnItsPage | src/components/UploadModal.jsx:109-112 | every item is shown on page `i / size + 1` at position `i % size`, and that page is in range |
| Paging.PrevNextStayInRange | src/components/UploadModal.jsx:310-331 | previous and next keep an in-range page in range |
| UploadList.ExtensionCategory | src/components/UploadModal.jsx:22-25 | an extension is an image, a PDF or a document exactly when it is in the matching list; otherwise it is Other |
| UploadList.TypeCategory | src/components/UploadModal.jsx:27-35 | a MIME type is an image exactly when it starts with `image/`, a PDF exactly when it is `application/pdf`, a document exactly for Word, Office Open XML or `text/` types |
| UploadList.FileCategory | src/components/UploadModal.jsx:19-36 | without a MIME type the extension decides; with one the type alone decides |
| UploadList.StandardTypeAgrees | src/components/UploadModal.jsx:19-36 | for the standard MIME type of each listed extension, the type and the extension give the same category |
| UploadList.TypeAndExtensionAgree | src/components/UploadModal.jsx:19-36 | a file whose MIME type is the standard one for its extension is classified the same with or without the type |
| UploadList.LegacyOfficeTypesAreOther | src/components/UploadModal.jsx:24-35 | `.xls` and `.ppt` count as documents by extension but as Other by their MIME types |
| UploadList.Filtered | src/components/UploadModal.jsx:99-106 | the filtered list keeps, in order, exactly the files of the chosen category whose lower-cased name contains the trimmed, lower-cased search; no search and "All" keep everything |
| UploadList.CurrentPage | src/components/UploadModal.jsx:110 | `min(page, totalPages)`: the chosen page when it is in range, and the last page when the chosen one lies past it |
| UploadList.PageItems | src/components/UploadModal.jsx:111-112 | a page holds at most a page size of files and is empty only when nothing matches |
| UploadList.PageItemsWindow | src/components/UploadModal.jsx:111-112 | the page shows the window of the filtered list that starts at `(currentPage - 1) * pageSize` |
| UploadList.ToggleSelectAllOnPage | src/components/UploadModal.jsx:120-127 | the files on the page become selected when any of them was unselected and unselected otherwise; other files and all other state are unchanged |
| UploadList.SelectAllThenHeader | src/components/UploadModal.jsx:120-127 | after select-all the header checkbox is ticked exactly when some file on the page had been unselected |
| UploadList.ToggleSelectOne | src/components/UploadModal.jsx:129-131 | only the selection of the file with that id flips; nothing else changes |
| UploadList.ToggleSelectOneTwice | src/components/UploadModal.jsx:129-131 | toggling one file twice restores the view |
| UploadList.DeleteOne | src/components/UploadModal.jsx:141-143 | the list keeps, in order, exactly the files with another id |
| UploadList.DeleteOneRemovesOne | src/components/UploadModal.jsx:141-143 | with distinct ids, deleting removes one file when the id is listed and none otherwise |
| UploadList.BulkDelete | src/components/UploadModal.jsx:133-139 | with no selection or no confirmation nothing changes; otherwise exactly the unselected files remain, in order, and the list gets shorter |
| UploadList.Incoming | src/components/UploadModal.jsx:58-67 | each dropped file becomes an unselected record with its given id, name, size and category; a missing modification time becomes the drop time |
| UploadList.Drop | src/components/UploadModal.jsx:50-88 | an empty drop changes nothing; otherwise the new records are appended after the old ones and the view returns to page 1 |
| UploadList.DropKeepsIdsDistinct | src/components/UploadModal.jsx:58-81 | fresh ids that are distinct from each other and from the listed ids keep the ids distinct |
| UploadList.SetSearch | src/components/UploadModal.jsx:206-207 | typing a search sets it and returns to page 1, changing nothing else |
| UploadList.SetFilter | src/components/UploadModal.jsx:215-216 | choosing a category sets it and returns to page 1, changing nothing else |
| UploadList.SetPageSize | src/components/UploadModal.jsx:238 | choosing a page size sets it and returns to page 1, changing nothing else |
| UploadList.PrevPage | src/components/UploadModal.jsx:310 | `max(1, page - 1)`: one page back, or page 1 from page 1 or below; only the page changes |
| UploadList.NextPage | src/components/UploadModal.jsx:331 | `min(totalPages, page + 1)`: one page on, or the last page from the last page or beyond; only the page changes |
| UploadList.GoToPage | src/components/UploadModal.jsx:323 | a page button sets the page to its number and changes nothing else |
| UploadList.StepPreservesValid | src/components/UploadModal.jsx:50-143 | every handler keeps file ids distinct and the page size positive |
| PageStrip.Range | src/components/UploadModal.jsx:150 | the page buttons `lo..hi`, one per page, in order |
| PageStrip.PageNumbers | src/components/UploadModal.jsx:146-152 | with at most seven pages the strip lists every page |
| PageStrip.PageNumbersWellFormed | src/components/UploadModal.jsx:146-163 | the strip starts at page 1, ends at the last page, lists the current page, has at most seven entries, puts consecutive numbers next to each other, and puts an ellipsis only between numbers it skips |
| PageStrip.StripEntries | src/components/UploadModal.jsx:154-161 | a long strip is 1, an optional ellipsis, the pages from `max(2, cur-1)` to `min(last-1, cur+1)`, an optional ellipsis and the last page |
| PageStrip.WellFormedCoversEveryPage | src/components/UploadModal.jsx:146-163 | on a well-formed strip every page is either listed or inside the run an ellipsis stands for |
| Projects.StatusClass | src/components/AdminDashboard.jsx:47-60 | each of Done, In Progress, Paused and Backlog has its own colour, and every other status gets the neutral one |
| Projects.StatusClassSeparates | src/components/Dashboard.jsx:22-35 | two statuses share a colour exactly when they are equal or both unknown |
| Projects.ToggleMenu | src/components/Dashboard.jsx:8-10 | clicking a row's menu closes it when it is open and otherwise opens it, closing any other |
| Projects.ToggleMenuTwice | src/components/AdminDashboard.jsx:17-19 | clicking twice restores the state exactly when no other row's menu was open |
| Projects.AtMostOneMenu | src/components/Dashboard.jsx:117 | with distinct project ids at most one row shows its menu |
| AdminBoard.Init | src/components/AdminDashboard.jsx:9-15 | the board starts with the given projects, no open menu, no selection and both dialogs closed |
| AdminBoard.ToggleMenu | src/components/AdminDashboard.jsx:17-19 | the clicked row's menu is open afterwards exactly when it was not open before, no menu is open exactly when it was the open one, and nothing else changes |
| AdminBoard.ToggleMenuTwice | src/components/AdminDashboard.jsx:17-19 | clicking the same menu button twice restores the board exactly when no other row's menu was open |
| AdminBoard.OpenEdit | src/components/AdminDashboard.jsx:21-25 | opening the editor selects the project, opens the edit dialog and closes the menu; projects and the delete dialog are unchanged |
| AdminBoard.OpenDelete | src/components/AdminDashboard.jsx:27-31 | opening the delete dialog selects the project and closes the menu; projects and the edit dialog are unchanged |
| AdminBoard.HandleSave | src/components/AdminDashboard.jsx:33-38 | each project with the saved id is replaced and the others are unchanged; the edit dialog closes and the selection clears |
| AdminBoard.SaveKeepsIds | src/components/AdminDashboard.jsx:33-38 | saving keeps ids distinct, and the saved project appears exactly when its id was listed |
| AdminBoard.HandleConfirmDelete | src/components/AdminDashboard.jsx:40-45 | without a selection nothing changes; otherwise exactly the projects with another id remain, the dialog closes and the selection clears |
| AdminBoard.ConfirmDeleteRemovesOne | src/components/AdminDashboard.jsx:40-45 | with distinct ids, a confirmed delete removes one project when the selected id is listed and none otherwise |
| AdminBoard.CancelEdit | src/components/AdminDashboard.jsx:153-156 | closing the editor clears the selection and changes nothing else |
| AdminBoard.CancelDelete | src/components/AdminDashboard.jsx:170-173 | closing the delete dialog clears the selection and changes nothing else |
| AdminBoard.StepPreservesValid | src/components/AdminDashboard.jsx:17-45 | every handler keeps project ids distinct |
| ProjectTable.HandleUpdate | src/components/Dashboard.jsx:12-15 | the update action alerts the project name and closes the menu |
| ProjectTable.HandleDelete | src/components/Dashboard.jsx:17-20 | the delete action alerts the project name and closes the menu |
| ProjectTable.StepOpensOnlyClickedRow | src/components/Dashboard.jsx:8-20 | after any event the only menu that can be open is the one just clicked |
| UserDashboard.Count | src/pages/UserDashboard.jsx:6-11 | `filter(p).length` is at most the number of projects, 0 exactly when none passes, and the whole length exactly when all pass |
| UserDashboard.CountAppend | src/pages/UserDashboard.jsx:6-11 | the count is 0 for no projects and grows by one exactly for each added project that passes |
| UserDashboard.TotalProjects | src/pages/UserDashboard.jsx:5 | the project total is the count under a filter that keeps every project, so it bounds every count over the projects |
| UserDashboard.ActiveProjects | src/pages/UserDashboard.jsx:6-8 | the in-progress count is 0 exactly when no project is in progress and the total exactly when all are |
| UserDashboard.PendingProjects | src/pages/UserDashboard.jsx:9-11 | the not-done count is 0 exactly when every project is done and the total exactly when none is |
| UserDashboard.CountersAppend | src/pages/UserDashboard.jsx:5-11 | all three counters are 0 for no projects; adding a project adds one to the total, one to the in-progress count when it is in progress, and one to the not-done count when it is not done |
| UserDashboard.CountersOrdered | src/pages/UserDashboard.jsx:5-11 | in progress <= not done <= all projects |
| UserDashboard.ActiveProjectList | src/pages/UserDashboard.jsx:28-30 | the active list keeps, in order, exactly the projects in progress or paused, each as often as it occurs in the list, and it is at least as long as the in-progress count |
| UserDashboard.PluralSuffix | src/pages/UserDashboard.jsx:147-148 | "member" takes no ending exactly for one member and "s" otherwise |
| UserDashboard.StatusBadgeClass | src/pages/UserDashboard.jsx:13-26 | Done, In Progress, Paused and Backlog each get their own badge colour, and a status gets the neutral badge exactly when it is none of the four |
| EditForm.Lookup | src/components/EditModal.jsx:46 | a property is found exactly when the object has that key, and the value found belongs to it |
| EditForm.Init | src/components/EditModal.jsx:20-27 | the dialog copies the object it is opened with, or starts empty |
| EditForm.Change | src/components/EditModal.jsx:39-41 | an existing property keeps its place and takes the new value; a new one is appended; every other property is unchanged |
| EditForm.ChangeThenLookup | src/components/EditModal.jsx:39-41 | after a change the property reads back the new value, every other property reads as before, and keys stay distinct |
| EditForm.NameBlankIsBlankText | src/components/EditModal.jsx:46 | a name counts as blank exactly when it is text made only of spaces; numbers, booleans and null never do |
| EditForm.Normalize | src/components/EditModal.jsx:51-59 | the saved object has the same keys in the same order; properties that were numbers become `Number(v)` or 0 for NaN, and the rest are unchanged |
| EditForm.NormalizeIdempotent | src/components/EditModal.jsx:51-59 | normalising twice is the same as normalising once |
| EditForm.NormalizeUntouched | src/components/EditModal.jsx:20-59 | submitting the untouched copy hands back the original object |
| EditForm.Submit | src/components/EditModal.jsx:43-62 | a save is blocked exactly when a name is present and blank; otherwise the normalised object is saved |
| EditForm.NoNameNeverBlocked | src/components/EditModal.jsx:46 | an object without a name is always saved |
| EditForm.Rank | src/components/EditModal.jsx:65-71 | `id` asks for place 0, `name` for place 1, everything else for place 2 |
| EditForm.KeyLeIsRankOrder | src/components/EditModal.jsx:65-71 | the field comparator allows a key first exactly when its place is not later |
| EditForm.OrderedKeys | src/components/EditModal.jsx:65 | the listed keys are a permutation of the object's keys |
| EditForm.OrderedKeysLayout | src/components/EditModal.jsx:65-71 | the fields are listed `id` first, then `name`, then the others in their own order |
| EditForm.IdListedFirst | src/components/EditModal.jsx:65-71 | an object with an `id` lists it first |
| TaskList.ProjectById | src/pages/MyTasks.jsx:59-63 | a project is found for an id exactly when some project has that id, and the one found has it |
| TaskList.CurrentUser | src/pages/MyTasks.jsx:54-57 | a stored non-empty user name wins; otherwise the signed-in name is used |
| TaskList.MyTasks | src/pages/MyTasks.jsx:66-69 | exactly the tasks assigned to the current user, in order and each as often as it occurs in the list; none when there is no user |
| TaskList.Options | src/pages/MyTasks.jsx:72-75 | "All" followed by each value once, in order of first appearance |
| TaskList.StatusOptions | src/pages/MyTasks.jsx:72-75 | "All", then each status some task has, exactly once, in the order the statuses first occur among the tasks |
| TaskList.PriorityOptions | src/pages/MyTasks.jsx:84-87 | "All", then each priority some task has, exactly once, in the order the priorities first occur among the tasks |
| TaskList.ProjectOptions | src/pages/MyTasks.jsx:76-83 | "All" followed by the names of exactly the known projects some task belongs to, in the order the tasks first name their project ids (the distinct ids, then the names of those the index knows, in that order) |
| TaskList.ResolvedNamesInOrder | src/pages/MyTasks.jsx:76-83 | looking the ids up, dropping the unknown ones and taking the names gives one name per known id, in the order of the ids |
| TaskList.ProjectNamesOfTasks | src/pages/MyTasks.jsx:76-83 | de-duplicating the project ids first does not change which names are offered |
| TaskList.Compare | src/pages/MyTasks.jsx:130-135 | the comparator gives -1, 0 or 1, 0 exactly for equal sort values, and orders ascending or descending by the direction |
| TaskList.SortValue | src/pages/MyTasks.jsx:113-128 | the four field columns sort by that field; the project column sorts by the name of the task's project, or the empty text when no project has its id; an unknown sort key gives every task the empty sort value |
| TaskList.TaskLeIsPreorder | src/pages/MyTasks.jsx:107-136 | for every key and direction the comparator is a total preorder |
| TaskList.ProcessTasks | src/pages/MyTasks.jsx:90-138 | the processed list is a permutation of the tasks that pass all three filters |
| TaskList.ProcessedInOrder | src/pages/MyTasks.jsx:107-136 | the processed list is ordered by the chosen key and direction |
| TaskList.ShowAllKeepsEveryTask | src/pages/MyTasks.jsx:94-104 | with every filter on "All" every task is shown |
| TaskList.UnknownKeyKeepsOrder | src/pages/MyTasks.jsx:125-127 | with an unknown sort key the filtered tasks keep their order |
| TaskList.HandleSort | src/pages/MyTasks.jsx:148-158 | clicking the sorted column flips its direction; clicking another sorts it ascending |
| TaskList.HandleSortTwice | src/pages/MyTasks.jsx:148-158 | clicking the sorted column twice restores the order; clicking a new column twice sorts it descending |
| TaskList.SortIndicator | src/pages/MyTasks.jsx:160-163 | only the sorted column shows an arrow: up when ascending and down when descending |
| TaskList.StatusChipClass | src/pages/MyTasks.jsx:10-24 | both waiting statuses share one colour, the other three known statuses have their own, and unknown statuses get the default |
| TaskList.PriorityClass | src/pages/MyTasks.jsx:26-37 | High and Medium have their own colours; Low and anything else share one |
| Employees.TotalPages | src/components/Users.jsx:19 | at least one page, holding every employee, with no empty last page |
| Employees.Visible | src/components/Users.jsx:20-24 | at most ten rows: the window of the table for the current page, and no rows for a page that starts past the end of the table |
| Employees.VisibleCoversTable | src/components/Users.jsx:19-24 | an in-range page is empty only for an empty table, and every employee is visible on some in-range page |
| Employees.Refresh | src/components/Users.jsx:26-29 | refreshing restores the given data and page 1 |
| Employees.AgeOf | src/components/Users.jsx:43 | `Number(age) \|\| 0`: the parsed number, or 0 when the answer is cancelled or not a number |
| Employees.TextOf | src/components/Users.jsx:44-45 | a cancelled answer becomes the empty text, and any other answer is kept |
| Employees.FullTimeIsYes | src/components/Users.jsx:46 | full-time exactly when the answer, lower-cased, is "yes" |
| Employees.NextId | src/components/Users.jsx:41 | the first id is 1, and with ascending ids the new id is above every id |
| Employees.NextIdIsMaxPlusOne | src/components/Users.jsx:41 | with ascending ids the new id is one more than the largest and collides with none |
| Employees.NextIdCanCollide | src/components/Users.jsx:41 | with ids not in ascending order the new id can equal an existing one |
| Employees.NewRow | src/components/Users.jsx:40-47 | the new row takes the next id and the name as given, `Number(age) \|\| 0`, the join date and department or "", and full-time exactly for "yes" |
| Employees.CreateAsWrittenKeepsValid | src/components/Users.jsx:31-51 | the create as written keeps ids ascending, and its stale page is still in range |
| Employees.CreateAsWritten | src/components/Users.jsx:31-51 | a cancelled name changes nothing; otherwise the new row is appended and the page becomes the page count from before the append |
| Employees.StalePageHidesNewRow | src/components/Users.jsx:50 | when the table fills its last page exactly, the page chosen after creating does not show the new row |
| Employees.Create | src/components/Users.jsx:31-51 | a cancelled name changes nothing; otherwise the new row is appended and the page becomes the last one |
| Employees.CreateShowsNewRow | src/components/Users.jsx:31-51 | after creating, the last visible row is the new one |
| Employees.CreateKeepsValid | src/components/Users.jsx:31-51 | creating keeps ids ascending and the page in range |
| Employees.Edited | src/components/Users.jsx:65-72 | the edited record keeps its id and takes the name as given and the other fields from the answers as a create does |
| Employees.Edit | src/components/Users.jsx:53-77 | a cancelled name changes nothing; otherwise rows with the edited id take the new answers and every id and the page are unchanged |
| Employees.AgeOfSpelledAge | src/components/Users.jsx:57 | accepting the suggested age gives the same age back |
| Employees.FullTimeOfSpelledFlag | src/components/Users.jsx:60-63 | accepting the suggested yes/no gives the same flag back |
| Employees.EditDefaultsKeepRecord | src/components/Users.jsx:53-72 | accepting every suggested answer reproduces the record |
| Employees.EditDefaultsIsNoOp | src/components/Users.jsx:53-77 | accepting every suggested answer leaves the table unchanged |
| Employees.Delete | src/components/Users.jsx:79-83 | without confirmation nothing changes; otherwise exactly the employees with another id remain, in order, and the page returns to 1 |
| Employees.DeleteRemovesOne | src/components/Users.jsx:79-83 | with ascending ids a confirmed delete removes one row when the id is listed and none otherwise |
| Employees.FilterKeepsAscending | src/components/Users.jsx:81 | filtering keeps ids ascending |
| Employees.Prev | src/components/Users.jsx:85-87 | `max(1, page - 1)` with the rows unchanged |
| Employees.Next | src/components/Users.jsx:89-91 | `min(totalPages, page + 1)` with the rows unchanged |
| Employees.StepPreservesValid | src/components/Users.jsx:26-91 | every handler as written keeps ids ascending and the page in range, and so do the handlers with the corrected create |
| Auth.Guard | src/features/auth/ProtectedRoute.jsx:5-18 | the route is shown exactly when a role is stored and no other role is required; every redirect goes to "/" |
| Auth.GuardRoles | src/features/auth/ProtectedRoute.jsx:9-15 | without a required role any stored role passes; with one only that role passes; no stored role never passes |
| Auth.FindUser | src/features/auth/Login.jsx:20-22 | the first entry whose user name and password both match, or none exactly when no entry matches |
| Auth.HomeOf | src/features/auth/Login.jsx:31-32 | administrators go to "/admin" and everyone else to "/user" |
| Auth.HandleLogin | src/features/auth/Login.jsx:17-33 | with no match the error is set and nothing is stored or visited; with a match that user is stored, the error is untouched and the browser goes to the role's home |
| Auth.LoginNavigates | src/features/auth/Login.jsx:17-33 | a login navigates exactly when some entry matches, and to "/admin" exactly when the match is an administrator |
| Auth.RedirectOnRender | src/features/auth/Login.jsx:13-15 | a stored administrator or user is redirected to their home; anyone else stays |
| Auth.LoginThenRender | src/features/auth/Login.jsx:13-33 | after a login, showing the form again agrees with the login's navigation for administrators and users only |

## Left out

- `formatSize` (`UploadModal.jsx` lines 11-17): it uses floating-point logarithms and `toFixed`.
- The simulated upload progress loop, `isUploading` and `uploadProgress`: they are timers and transient display state. The model appends the dropped files at once.
- Generated ids (`nanoid`) and the current time are parameters of `UploadList.Drop`. The drop dialog itself (`useDropzone`) is not modelled.
- The `selectAllOnPage` flag and the effect that resets it: the flag is never read when rendering. The header checkbox is computed from the page, as `UploadList.HeaderChecked`.
- Unicode: trimming recognises the ASCII white space (space, tab, line feed, carriage return, vertical tab, form feed), U+00A0 and U+FEFF. JavaScript's other Unicode spaces are not recognised: U+1680, U+2000–U+200A, U+2028, U+2029, U+202F, U+205F and U+3000. Lower-casing changes ASCII letters only. String order compares characters, which matches JavaScript's UTF-16 order only inside the Basic Multilingual Plane.
- `Number()`: it is modelled on decimal integers only. Fractions, exponents, hexadecimal and `Infinity` are not modelled.
- `Object.keys` enumeration order: the model uses insertion order. JavaScript lists integer-like keys first.
- Storage, network and the sample data are not modelled:
  - The `useApi` hook and `auth.js` are not part of this model.
  - Browser storage and the JSON sample files are inputs.
  - The role guard reads "role" while the login screen writes "auth". The model takes each read as a separate parameter, as the code does.
- `window.prompt`, `window.confirm` and `alert` are inputs (`Employees.Answers`, the `confirmed` flags). Alerts are returned as text.
- Rendering: the Escape-key listener of the edit dialog, routing, JSX layout and the selected-task details view of `MyTasks.jsx` are not modelled.
- PageStrip.PageNumbersWellFormed: requires the current page to be in range. The code only calls it with the clamped current page.
- Employees.NextIdIsMaxPlusOne: requires ascending ids. `Employees.NextIdCanCollide` shows that unordered ids can collide.
- Employees.StepPreservesValid: requires the data a refresh restores to have ascending ids. The code does not check this.
- UploadList.StepPreservesValid: requires freshly generated ids to be distinct from each other and from the listed ones. The code relies on `nanoid` for this.

The model keeps these behaviours as the code has them:

- The new employee id is the last id plus one, not the largest plus one.
- A drop returns to page 1.
- Select-all twice does not restore a page that was partly selected.
- Changing the page size returns to page 1.
- There is no page jump other than the page buttons.

## Findings

| source | as written | input that shows it | evidently intended | confidence | as-written member | corrected member |
|---|---|---|---|---|---|---|
| src/components/Users.jsx:50 | `setPage(totalPages)` uses the page count from before the new row is appended | ten employees with ascending ids, then Create with a name: the page becomes 1 while the new row is on page 2 | show the last page, which holds the new row | not executed | Employees.CreateAsWritten (Employees.StalePageHidesNewRow) | Employees.Create (Employees.CreateShowsNewRow) |
