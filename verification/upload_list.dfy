/** The file list of the upload dialog (`src/components/UploadModal.jsx`): each
    dropped file becomes a record with a category; the list is filtered by a
    search text and a category, paged, shown with a page-number strip, and its
    rows can be selected and deleted one by one or in bulk. */
module UploadList {
  import opened Basics
  import Text
  import Seqs
  import Paging

  datatype Category = Image | Pdf | Doc | Other

  const ImageExtensions: seq<string> := ["png", "jpg", "jpeg", "gif", "svg", "webp"]
  const DocExtensions: seq<string> := ["doc", "docx", "xls", "xlsx", "ppt", "pptx", "txt"]

  /** The lowercased text after the last `.` of a file name (the whole name when it
      has no `.`). */
  function Extension(name: string): string {
    Text.Lower(Text.AfterLast(name, '.'))
  }

  /** The category an extension names, used when the browser gave no type. */
  function ExtensionCategory(ext: string): (r: Category)
    ensures r == Image <==> ext in ImageExtensions
    ensures r == Pdf <==> ext == "pdf"
    ensures r == Doc <==> ext in DocExtensions
  {
    if ext in ImageExtensions then Image
    else if ext == "pdf" then Pdf
    else if ext in DocExtensions then Doc
    else Other
  }

  /** The category a MIME type names: images by their top-level type, PDF by its
      exact type, and Word, Office Open XML and text files as documents. */
  function TypeCategory(mimeType: string): (r: Category)
    ensures r == Image <==> Text.StartsWith(mimeType, "image/")
    ensures r == Pdf <==> mimeType == "application/pdf"
    ensures r == Doc <==> !Text.StartsWith(mimeType, "image/") &&
                          (mimeType == "application/msword" || Text.Contains(mimeType, "officedocument")
                           || Text.StartsWith(mimeType, "text/"))
  {
    if Text.StartsWith(mimeType, "image/") then
      assert mimeType[0] == 'i';
      Image
    else if mimeType == "application/pdf" then
      Text.MissingCharNotContained(mimeType, "officedocument", 'u');
      Text.FirstCharMismatch(mimeType, "text/");
      Pdf
    else if mimeType == "application/msword" || Text.Contains(mimeType, "officedocument")
         || Text.StartsWith(mimeType, "text/") then Doc
    else Other
  }

  /** `fileCategory(type, name)`: the MIME type decides when the browser supplied
      one (a non-empty string), the file name's extension otherwise. */
  function FileCategory(mimeType: string, name: string): (r: Category)
    ensures mimeType == "" ==> r == ExtensionCategory(Extension(name))
    ensures mimeType != "" ==> r == TypeCategory(mimeType)
  {
    if mimeType == "" then ExtensionCategory(Extension(name)) else TypeCategory(mimeType)
  }

  const OpenXml := "application/vnd.openxmlformats-"

  /** The registered MIME type of each extension the classification knows, as a
      browser reports it in `File.type`. */
  const StandardTypes: seq<(string, string)> := [
    ("png", "image/png"), ("jpg", "image/jpeg"), ("jpeg", "image/jpeg"), ("gif", "image/gif"),
    ("svg", "image/svg+xml"), ("webp", "image/webp"), ("pdf", "application/pdf"),
    ("doc", "application/msword"),
    ("docx", OpenXml + "officedocument" + ".wordprocessingml.document"),
    ("xlsx", OpenXml + "officedocument" + ".spreadsheetml.sheet"),
    ("pptx", OpenXml + "officedocument" + ".presentationml.presentation"),
    ("txt", "text/plain")]

  /** For these extensions it does not matter whether the browser supplied the type:
      the type rules and the extension rules give the same category. */
  lemma TypeAndExtensionAgree(name: string, k: nat)
    requires k < |StandardTypes|
    requires Extension(name) == StandardTypes[k].0
    ensures FileCategory(StandardTypes[k].1, name) == FileCategory("", name)
  {
    StandardTypeAgrees(k);
  }

  lemma StandardTypeAgrees(k: nat)
    requires k < |StandardTypes|
    ensures TypeCategory(StandardTypes[k].1) == ExtensionCategory(StandardTypes[k].0)
  {
    var mime := StandardTypes[k].1;
    if k < 6 {
      assert Text.StartsWith(mime, "image/");
    } else if k == 11 {
      Text.FirstCharMismatch(mime, "image/");
      Text.StartsWithConcat("text/", "plain");
    } else if k < 8 {
      Text.FirstCharMismatch(mime, "image/");
    } else {
      var tail := if k == 8 then ".wordprocessingml.document"
                  else if k == 9 then ".spreadsheetml.sheet" else ".presentationml.presentation";
      OpenXmlTypeIsDoc(tail);
    }
  }

  /** An Office Open XML document type is a document type. */
  lemma OpenXmlTypeIsDoc(tail: string)
    ensures TypeCategory(OpenXml + "officedocument" + tail) == Doc
  {
    var mime := OpenXml + "officedocument" + tail;
    Text.ContainsMiddle(OpenXml, "officedocument", tail);
    assert mime[0] == 'a';
    Text.FirstCharMismatch(mime, "image/");
  }

  /** The legacy Excel and PowerPoint types are not among the type rules, so a
      `.xls` or `.ppt` file is a document only when the browser gave no type. */
  lemma LegacyOfficeTypesAreOther(name: string)
    requires Extension(name) in ["xls", "ppt"]
    ensures FileCategory("", name) == Doc
    ensures FileCategory("application/vnd.ms-excel", name) == Other
    ensures FileCategory("application/vnd.ms-powerpoint", name) == Other
  {
    ExcelTypeIsOther();
    PowerPointTypeIsOther();
  }

  lemma ExcelTypeIsOther()
    ensures TypeCategory("application/vnd.ms-excel") == Other
  {
    var mime := "application/vnd.ms-excel";
    Text.MissingCharNotContained(mime, "officedocument", 'u');
    Text.FirstCharMismatch(mime, "text/");
    Text.FirstCharMismatch(mime, "image/");
  }

  lemma PowerPointTypeIsOther()
    ensures TypeCategory("application/vnd.ms-powerpoint") == Other
  {
    var mime := "application/vnd.ms-powerpoint";
    Text.MissingCharNotContained(mime, "officedocument", 'u');
    Text.FirstCharMismatch(mime, "text/");
    Text.FirstCharMismatch(mime, "image/");
  }

  /** One row of the list. `lastModified` is a millisecond timestamp. */
  datatype UploadedFile = UploadedFile(
    id: string, name: string, size: nat, lastModified: int, uploadedBy: string,
    mimeType: string, category: Category, selected: bool)

  /** What the drop zone hands over for one file; `lastModified` 0 means missing. */
  datatype DroppedFile = DroppedFile(name: string, size: nat, lastModified: int, mimeType: string)

  /** The category select: "All" or one category. */
  datatype CategoryFilter = AllTypes | OnlyCategory(category: Category)

  /** The dialog's list state: the records, the search text, the category filter,
      the requested page and the page size. */
  datatype UploadView = UploadView(
    files: seq<UploadedFile>, search: string, filter: CategoryFilter, page: int, pageSize: nat)

  /** The initial state: nothing uploaded, no search, all types, page 1 of 5 rows. */
  const Initial := UploadView([], "", AllTypes, 1, 5)

  function IdOf(f: UploadedFile): string {
    f.id
  }

  function Ids(files: seq<UploadedFile>): seq<string> {
    Seqs.Map(files, IdOf)
  }

  /** Record ids are distinct, pages are counted from 1, and a page holds rows. */
  ghost predicate Valid(v: UploadView) {
    v.pageSize >= 1 && v.page >= 1 && Seqs.DistinctKeys(v.files, IdOf)
  }

  /** The search as it is matched: trimmed and lowercased. */
  function Query(search: string): string {
    Text.Lower(Text.Trim(search))
  }

  predicate Keep(f: UploadedFile, search: string, filter: CategoryFilter) {
    && (filter.AllTypes? || f.category == filter.category)
    && (Query(search) == "" || Text.Contains(Text.Lower(f.name), Query(search)))
  }

  function Keeper(search: string, filter: CategoryFilter): UploadedFile -> bool {
    (f: UploadedFile) => Keep(f, search, filter)
  }

  /** The rows that pass the category filter and contain the search text. */
  function Filtered(files: seq<UploadedFile>, search: string, filter: CategoryFilter): (r: seq<UploadedFile>)
    ensures Seqs.IsSubseq(r, files)
    ensures forall f :: f in r <==> f in files && Keep(f, search, filter)
    ensures filter == AllTypes && (forall i :: 0 <= i < |search| ==> Text.IsSpace(search[i])) ==> r == files
  {
    Seqs.Filter(files, Keeper(search, filter))
  }

  function VisibleCount(v: UploadView): nat {
    |Filtered(v.files, v.search, v.filter)|
  }

  function TotalPages(v: UploadView): (r: nat)
    requires v.pageSize >= 1
    ensures r >= 1
  {
    Paging.TotalPages(VisibleCount(v), v.pageSize)
  }

  /** The page actually shown: the requested page, but never past the last one. */
  function CurrentPage(v: UploadView): (r: int)
    requires v.pageSize >= 1
    ensures r <= TotalPages(v)
    ensures v.page >= 1 ==> r >= 1
    ensures v.page <= TotalPages(v) ==> r == v.page
    ensures v.page >= TotalPages(v) ==> r == TotalPages(v)
  {
    Min(v.page, TotalPages(v))
  }

  /** The rows of the current page. */
  function PageItems(v: UploadView): (r: seq<UploadedFile>)
    requires v.pageSize >= 1
    ensures |r| <= v.pageSize
    ensures v.page >= 1 ==> (|r| == 0 <==> VisibleCount(v) == 0)
  {
    var items := Filtered(v.files, v.search, v.filter);
    var page := CurrentPage(v);
    if v.page >= 1 then
      Paging.PageInRangeNotEmpty(items, page, v.pageSize);
      Paging.PageSlice(items, page, v.pageSize)
    else
      Paging.PageSlice(items, page, v.pageSize)
  }

  /** The current page is the window of the filtered rows that starts at
      `(currentPage - 1) * pageSize`. */
  lemma PageItemsWindow(v: UploadView)
    requires v.pageSize >= 1 && v.page >= 1
    ensures 0 <= Paging.PageStart(CurrentPage(v), v.pageSize) <= VisibleCount(v)
    ensures PageItems(v) == Filtered(v.files, v.search, v.filter)[Paging.PageStart(CurrentPage(v), v.pageSize)..
              Min(Paging.PageStart(CurrentPage(v), v.pageSize) + v.pageSize, VisibleCount(v))]
  {
    Paging.PageInRangeNotEmpty(Filtered(v.files, v.search, v.filter), CurrentPage(v), v.pageSize);
  }

  /** The header checkbox: ticked when the page has rows and all are selected. */
  predicate HeaderChecked(v: UploadView)
    requires v.pageSize >= 1
  {
    var items := PageItems(v);
    |items| > 0 && forall i :: 0 <= i < |items| ==> items[i].selected
  }

  predicate AnyUnselected(items: seq<UploadedFile>) {
    exists i :: 0 <= i < |items| && !items[i].selected
  }

  function SetIfListed(ids: seq<string>, value: bool): UploadedFile -> UploadedFile {
    (f: UploadedFile) => if f.id in ids then f.(selected := value) else f
  }

  /** The header checkbox handler: every row of the current page becomes selected
      when one of them was not, and all become unselected otherwise; rows of other
      pages, the row order and the rest of the state stay as they were. */
  function ToggleSelectAllOnPage(v: UploadView): (r: UploadView)
    requires v.pageSize >= 1
    ensures r == v.(files := r.files)
    ensures |r.files| == |v.files|
    ensures forall i :: 0 <= i < |v.files| ==>
      r.files[i] == (if v.files[i].id in Ids(PageItems(v)) then v.files[i].(selected := AnyUnselected(PageItems(v)))
                     else v.files[i])
  {
    var items := PageItems(v);
    v.(files := Seqs.Map(v.files, SetIfListed(Ids(items), AnyUnselected(items))))
  }

  /** After the header checkbox is clicked on a page with rows, it shows ticked
      exactly when some row of the page was unselected before: the rows are still on
      the same page and all carry the new selection. */
  lemma SelectAllThenHeader(v: UploadView)
    requires Valid(v)
    requires |PageItems(v)| > 0
    ensures HeaderChecked(ToggleSelectAllOnPage(v)) == AnyUnselected(PageItems(v))
  {
    var items := PageItems(v);
    var a := AnyUnselected(items);
    var g := SetIfListed(Ids(items), a);
    var r := v.(files := Seqs.Map(v.files, g));
    assert ToggleSelectAllOnPage(v) == r;
    SelectionKeepsPage(v, Ids(items), a);
    ListedAllSet(items, a);
    HeaderOfUniformPage(r, a);
  }

  /** Setting the selection of every listed row sets it on all of `items`. */
  lemma ListedAllSet(items: seq<UploadedFile>, value: bool)
    ensures forall i :: 0 <= i < |items| ==> Seqs.Map(items, SetIfListed(Ids(items), value))[i].selected == value
  {
    forall i | 0 <= i < |items| ensures Seqs.Map(items, SetIfListed(Ids(items), value))[i].selected == value {
      assert Ids(items)[i] == items[i].id;
    }
  }

  /** A page with rows that are all selected, or all unselected, ticks the header
      exactly in the first case. */
  lemma HeaderOfUniformPage(v: UploadView, value: bool)
    requires v.pageSize >= 1
    requires |PageItems(v)| > 0
    requires forall i :: 0 <= i < |PageItems(v)| ==> PageItems(v)[i].selected == value
    ensures HeaderChecked(v) == value
  {
    if !value {
      assert !PageItems(v)[0].selected;
    }
  }

  /** Changing selections leaves the filtered rows and the page where they were. */
  lemma SelectionKeepsPage(v: UploadView, ids: seq<string>, value: bool)
    requires v.pageSize >= 1 && v.page >= 1
    ensures PageItems(v.(files := Seqs.Map(v.files, SetIfListed(ids, value))))
         == Seqs.Map(PageItems(v), SetIfListed(ids, value))
  {
    var g := SetIfListed(ids, value);
    var r := v.(files := Seqs.Map(v.files, g));
    Seqs.FilterMapCommute(v.files, Keeper(v.search, v.filter), g);
    var fv := Filtered(v.files, v.search, v.filter);
    assert Filtered(r.files, r.search, r.filter) == Seqs.Map(fv, g);
    assert CurrentPage(r) == CurrentPage(v);
    Paging.PageSliceMap(fv, g, CurrentPage(v), v.pageSize);
  }

  function Flip(id: string): UploadedFile -> UploadedFile {
    (f: UploadedFile) => if f.id == id then f.(selected := !f.selected) else f
  }

  /** A row checkbox handler: flips the selection of the row with that id only. */
  function ToggleSelectOne(v: UploadView, id: string): (r: UploadView)
    ensures r == v.(files := r.files)
    ensures |r.files| == |v.files|
    ensures forall i :: 0 <= i < |v.files| ==>
      && r.files[i].(selected := v.files[i].selected) == v.files[i]
      && (r.files[i].selected != v.files[i].selected <==> v.files[i].id == id)
  {
    v.(files := Seqs.Map(v.files, Flip(id)))
  }

  /** Clicking the same row checkbox twice restores the selection. */
  lemma ToggleSelectOneTwice(v: UploadView, id: string)
    ensures ToggleSelectOne(ToggleSelectOne(v, id), id) == v
  {
  }

  function WithoutId(id: string): UploadedFile -> bool {
    (f: UploadedFile) => f.id != id
  }

  /** The row delete button: removes the records with that id and keeps the others
      in order. */
  function DeleteOne(v: UploadView, id: string): (r: UploadView)
    ensures r == v.(files := r.files)
    ensures Seqs.IsSubseq(r.files, v.files)
    ensures forall f :: f in r.files <==> f in v.files && f.id != id
  {
    v.(files := Seqs.Filter(v.files, WithoutId(id)))
  }

  /** With distinct ids, deleting a present id removes exactly one row. */
  lemma DeleteOneRemovesOne(v: UploadView, id: string)
    requires Seqs.DistinctKeys(v.files, IdOf)
    ensures |DeleteOne(v, id).files| == |v.files| - (if id in Ids(v.files) then 1 else 0)
  {
    Seqs.FilterOutKey(v.files, IdOf, id, WithoutId(id));
    var ids := Ids(v.files);
    assert (exists i :: 0 <= i < |v.files| && IdOf(v.files[i]) == id) <==> id in ids by {
      if id in ids {
        var i :| 0 <= i < |ids| && ids[i] == id;
        assert IdOf(v.files[i]) == id;
      }
      if exists i :: 0 <= i < |v.files| && IdOf(v.files[i]) == id {
        var i :| 0 <= i < |v.files| && IdOf(v.files[i]) == id;
        assert ids[i] == id;
      }
    }
  }

  function Unselected(): UploadedFile -> bool {
    (f: UploadedFile) => !f.selected
  }

  predicate AnySelected(files: seq<UploadedFile>) {
    exists i :: 0 <= i < |files| && files[i].selected
  }

  /** The "Delete Selected" button: nothing happens when no row is selected or the
      confirmation is declined; otherwise exactly the unselected rows remain, in
      order. */
  function BulkDelete(v: UploadView, confirmed: bool): (r: UploadView)
    ensures r == v.(files := r.files)
    ensures !AnySelected(v.files) || !confirmed ==> r == v
    ensures AnySelected(v.files) && confirmed ==>
      && Seqs.IsSubseq(r.files, v.files)
      && (forall f :: f in r.files <==> f in v.files && !f.selected)
      && |r.files| < |v.files|
  {
    if !AnySelected(v.files) || !confirmed then v
    else
      var r := v.(files := Seqs.Filter(v.files, Unselected()));
      var i :| 0 <= i < |v.files| && v.files[i].selected;
      assert multiset(r.files)[v.files[i]] == 0;
      assert |r.files| != |v.files| by {
        if |r.files| == |v.files| {
          Seqs.SubseqSameLength(r.files, v.files);
        }
      }
      r
  }

  /** The records built for a drop: fresh ids, the drop's uploader, the category of
      each file, nothing selected, and the current time when the file carries none. */
  function Incoming(dropped: seq<DroppedFile>, ids: seq<string>, uploadedBy: string, now: int): (r: seq<UploadedFile>)
    requires |ids| == |dropped|
    ensures |r| == |dropped|
    ensures forall i :: 0 <= i < |r| ==>
      && r[i].id == ids[i] && r[i].name == dropped[i].name && r[i].size == dropped[i].size
      && r[i].category == FileCategory(dropped[i].mimeType, dropped[i].name)
      && !r[i].selected && r[i].uploadedBy == uploadedBy
      && r[i].lastModified == (if dropped[i].lastModified != 0 then dropped[i].lastModified else now)
  {
    seq(|dropped|, i requires 0 <= i < |dropped| =>
      var d := dropped[i];
      UploadedFile(ids[i], d.name, d.size, if d.lastModified != 0 then d.lastModified else now,
                   uploadedBy, d.mimeType, FileCategory(d.mimeType, d.name), false))
  }

  /** A finished drop: an empty drop changes nothing; otherwise the new records are
      appended after the existing ones and the view returns to page 1. */
  function Drop(v: UploadView, dropped: seq<DroppedFile>, ids: seq<string>, uploadedBy: string, now: int): (r: UploadView)
    requires |ids| == |dropped|
    ensures |dropped| == 0 ==> r == v
    ensures |dropped| > 0 ==>
      && r == v.(files := r.files, page := 1)
      && r.files == v.files + Incoming(dropped, ids, uploadedBy, now)
  {
    if |dropped| == 0 then v
    else v.(files := v.files + Incoming(dropped, ids, uploadedBy, now), page := 1)
  }

  /** Typing in the search box: new search text, back to page 1. */
  function SetSearch(v: UploadView, search: string): (r: UploadView)
    ensures r.search == search && r.page == 1
    ensures r.(search := v.search, page := v.page) == v
  {
    v.(search := search, page := 1)
  }

  /** Choosing a category: new filter, back to page 1. */
  function SetFilter(v: UploadView, filter: CategoryFilter): (r: UploadView)
    ensures r.filter == filter && r.page == 1
    ensures r.(filter := v.filter, page := v.page) == v
  {
    v.(filter := filter, page := 1)
  }

  /** Choosing a page size (the select offers 5, 7 and 10): back to page 1. */
  function SetPageSize(v: UploadView, size: nat): (r: UploadView)
    ensures r.pageSize == size && r.page == 1
    ensures r.(pageSize := v.pageSize, page := v.page) == v
  {
    v.(pageSize := size, page := 1)
  }

  /** A page-number button. */
  function GoToPage(v: UploadView, page: int): (r: UploadView)
    ensures r.page == page
    ensures r.(page := v.page) == v
  {
    v.(page := page)
  }

  /** The Prev button: one page back, never below 1. */
  function PrevPage(v: UploadView): (r: UploadView)
    ensures r.page >= 1
    ensures v.page > 1 ==> r.page == v.page - 1
    ensures v.page <= 1 ==> r.page == 1
    ensures r == v.(page := r.page)
  {
    v.(page := Paging.Prev(v.page))
  }

  /** The Next button: one page on, never past the last page. */
  function NextPage(v: UploadView): (r: UploadView)
    requires v.pageSize >= 1
    ensures r.page <= TotalPages(v)
    ensures v.page >= 1 ==> r.page >= 1
    ensures v.page < TotalPages(v) ==> r.page == v.page + 1
    ensures v.page >= TotalPages(v) ==> r.page == TotalPages(v)
    ensures r == v.(page := r.page)
  {
    v.(page := Paging.Next(v.page, TotalPages(v)))
  }

  /** The user's actions on the list. */
  datatype Event =
    | Search(text: string)
    | ChooseFilter(filter: CategoryFilter)
    | ChoosePageSize(size: nat)
    | Dropped(dropped: seq<DroppedFile>, ids: seq<string>, uploadedBy: string, now: int)
    | PageClicked(page: int)
    | PrevClicked
    | NextClicked
    | SelectAllClicked
    | RowToggled(id: string)
    | DeleteSelectedClicked(confirmed: bool)
    | RowDeleted(id: string)

  /** What the dialog can actually send: page sizes and page buttons are positive,
      and dropped files come with as many fresh, distinct ids. */
  ghost predicate Allowed(v: UploadView, e: Event) {
    match e
    case ChoosePageSize(size) => size >= 1
    case PageClicked(page) => page >= 1
    case Dropped(dropped, ids, _, _) =>
      |ids| == |dropped| && Seqs.NoDups(ids) && forall k :: k in ids ==> k !in Ids(v.files)
    case _ => true
  }

  function Step(v: UploadView, e: Event): UploadView
    requires Valid(v) && Allowed(v, e)
  {
    match e
    case Search(text) => SetSearch(v, text)
    case ChooseFilter(filter) => SetFilter(v, filter)
    case ChoosePageSize(size) => SetPageSize(v, size)
    case Dropped(dropped, ids, who, now) => Drop(v, dropped, ids, who, now)
    case PageClicked(page) => GoToPage(v, page)
    case PrevClicked => PrevPage(v)
    case NextClicked => NextPage(v)
    case SelectAllClicked => ToggleSelectAllOnPage(v)
    case RowToggled(id) => ToggleSelectOne(v, id)
    case DeleteSelectedClicked(confirmed) => BulkDelete(v, confirmed)
    case RowDeleted(id) => DeleteOne(v, id)
  }

  /** Whatever the user does, the list keeps its invariant; a drop needs fresh,
      distinct ids, as `nanoid` provides. */
  lemma StepPreservesValid(v: UploadView, e: Event)
    requires Valid(v) && Allowed(v, e)
    ensures Valid(Step(v, e))
  {
    var r := Step(v, e);
    match e
    case Dropped(dropped, ids, who, now) => DropKeepsIdsDistinct(v, dropped, ids, who, now);
    case SelectAllClicked => Seqs.SameKeysDistinct(v.files, r.files, IdOf);
    case RowToggled(id) => Seqs.SameKeysDistinct(v.files, r.files, IdOf);
    case DeleteSelectedClicked(confirmed) =>
      Seqs.FilterKeysDistinct(v.files, Unselected(), IdOf);
    case RowDeleted(id) =>
      Seqs.FilterKeysDistinct(v.files, WithoutId(id), IdOf);
    case _ =>
  }

  /** A drop with fresh, distinct ids keeps the record ids distinct. */
  lemma DropKeepsIdsDistinct(v: UploadView, dropped: seq<DroppedFile>, ids: seq<string>, who: string, now: int)
    requires |ids| == |dropped| && Seqs.NoDups(ids) && forall k :: k in ids ==> k !in Ids(v.files)
    requires Seqs.DistinctKeys(v.files, IdOf)
    ensures Seqs.DistinctKeys(Drop(v, dropped, ids, who, now).files, IdOf)
  {
    if |dropped| > 0 {
      var inc := Incoming(dropped, ids, who, now);
      assert forall i :: 0 <= i < |inc| ==> IdOf(inc[i]) == ids[i];
      forall i, j | 0 <= i < |v.files| && 0 <= j < |inc| ensures IdOf(v.files[i]) != IdOf(inc[j]) {
        assert ids[j] in ids;
        assert Ids(v.files)[i] == IdOf(v.files[i]);
      }
      Seqs.AppendKeysDistinct(v.files, inc, IdOf);
    }
  }
}
