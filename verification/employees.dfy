/** The employee table (`src/components/Users.jsx`): a list of employee records
    shown ten rows a page, with create, edit and delete driven by browser
    prompts. The prompt and confirm answers are inputs here: `None` is a
    cancelled prompt. */
module Employees {
  import opened Basics
  import Text
  import Seqs
  import Paging
  import JsValues

  datatype Employee = Employee(id: int, name: string, age: int, joinDate: string, department: string, fullTime: bool)

  /** The table's state: the records and the 1-based page shown. */
  datatype Table = Table(employees: seq<Employee>, page: int)

  const RowsPerPage: nat := 10

  /** The answers to the five prompts of the create and edit dialogs, in order. */
  datatype Answers = Answers(
    name: Option<string>, age: Option<string>, joinDate: Option<string>, department: Option<string>,
    fullTime: Option<string>)

  function IdOf(e: Employee): int {
    e.id
  }

  /** Ids increase along the list. The sample data is listed by id, and every
      operation keeps it so; this is what makes "last id plus one" a fresh id. */
  predicate AscendingIds(employees: seq<Employee>) {
    forall i, j :: 0 <= i < j < |employees| ==> employees[i].id < employees[j].id
  }

  /** The page shown is an existing page. */
  predicate PageInRange(t: Table) {
    1 <= t.page <= TotalPages(t)
  }

  ghost predicate Valid(t: Table) {
    AscendingIds(t.employees) && PageInRange(t)
  }

  /** `Math.max(1, Math.ceil(employees.length / 10))`. */
  function TotalPages(t: Table): (r: nat)
    ensures r >= 1
    ensures |t.employees| <= r * RowsPerPage
    ensures r == 1 || (r - 1) * RowsPerPage < |t.employees|
  {
    Paging.TotalPages(|t.employees|, RowsPerPage)
  }

  /** The rows shown: `employees.slice((page - 1) * 10, (page - 1) * 10 + 10)`. The
      page is not clamped here; an out-of-range page shows no rows. */
  function Visible(t: Table): (r: seq<Employee>)
    ensures t.page >= 1 ==> |r| <= RowsPerPage
    ensures t.page >= 1 && Paging.PageStart(t.page, RowsPerPage) <= |t.employees| ==>
      r == t.employees[Paging.PageStart(t.page, RowsPerPage)..Min(Paging.PageStart(t.page, RowsPerPage) + RowsPerPage, |t.employees|)]
    ensures t.page >= 1 && Paging.PageStart(t.page, RowsPerPage) >= |t.employees| ==> r == []
  {
    Paging.PageSlice(t.employees, t.page, RowsPerPage)
  }

  /** On a page in range rows are shown exactly when there are employees, and
      every employee is shown on some page in range. */
  lemma VisibleCoversTable(t: Table, i: nat)
    requires PageInRange(t)
    ensures |Visible(t)| == 0 <==> |t.employees| == 0
    ensures i < |t.employees| ==>
      var p := i / RowsPerPage + 1;
      && 1 <= p <= TotalPages(t)
      && t.employees[i] in Visible(t.(page := p))
  {
    Paging.PageInRangeNotEmpty(t.employees, t.page, RowsPerPage);
    if i < |t.employees| {
      Paging.ItemOnItsPage(t.employees, i, RowsPerPage);
      var v := Visible(t.(page := i / RowsPerPage + 1));
      assert v[i % RowsPerPage] == t.employees[i];
    }
  }

  /** `handleRefresh`: the records the table was created with, on page 1. */
  function Refresh(usersData: seq<Employee>): (r: Table)
    ensures r.employees == usersData && r.page == 1
    ensures PageInRange(r)
  {
    Table(usersData, 1)
  }

  /** `!name`: a cancelled prompt or an empty answer. */
  predicate Falsy(answer: Option<string>) {
    answer.None? || answer.value == ""
  }

  /** `Number(age) || 0`: a cancelled prompt reads as `Number(null)`, which is 0;
      text that is not a number gives `NaN`, which is also replaced by 0. */
  function AgeOf(answer: Option<string>): (r: int)
    ensures answer.Some? && JsValues.ParseNumber(answer.value).Some? ==> r == JsValues.ParseNumber(answer.value).value
    ensures answer.None? || JsValues.ParseNumber(answer.value).None? ==> r == 0
  {
    match answer
    case None => 0
    case Some(s) => JsValues.ParseNumber(s).GetOr(0)
  }

  /** `answer || ""`. */
  function TextOf(answer: Option<string>): (r: string)
    ensures answer.Some? ==> r == answer.value
    ensures answer.None? ==> r == ""
  {
    answer.GetOr("")
  }

  /** `answer?.toLowerCase() === "yes"`, with ASCII case folding. */
  predicate FullTimeOf(answer: Option<string>) {
    answer.Some? && Text.Lower(answer.value) == "yes"
  }

  /** The full-time answer is "yes" in any mix of upper and lower case. */
  lemma FullTimeIsYes(answer: string)
    ensures FullTimeOf(Some(answer)) <==>
      |answer| == 3 && Text.LowerChar(answer[0]) == 'y' && Text.LowerChar(answer[1]) == 'e' && Text.LowerChar(answer[2]) == 's'
  {
    if |answer| == 3 && Text.LowerChar(answer[0]) == 'y' && Text.LowerChar(answer[1]) == 'e' && Text.LowerChar(answer[2]) == 's' {
      assert Text.Lower(answer) == "yes";
    }
  }

  /** A record with the given id built from the answers (`name` taken as given). */
  function Record(id: int, name: string, a: Answers): (r: Employee)
    ensures r.id == id && r.name == name
    ensures r.age == AgeOf(a.age) && r.joinDate == TextOf(a.joinDate) && r.department == TextOf(a.department)
    ensures r.fullTime <==> FullTimeOf(a.fullTime)
  {
    Employee(id, name, AgeOf(a.age), TextOf(a.joinDate), TextOf(a.department), FullTimeOf(a.fullTime))
  }

  /** The id `handleCreate` gives a new record: the last record's id plus one, or 1
      for an empty table. */
  function NextId(employees: seq<Employee>): (r: int)
    ensures |employees| == 0 ==> r == 1
    ensures AscendingIds(employees) ==> forall i :: 0 <= i < |employees| ==> employees[i].id < r
  {
    if |employees| == 0 then 1 else employees[|employees| - 1].id + 1
  }

  /** With ascending ids the last id plus one is the largest id plus one, so the
      new id is fresh; without that order it need not be. */
  lemma NextIdIsMaxPlusOne(employees: seq<Employee>)
    requires AscendingIds(employees) && |employees| > 0
    ensures exists i :: 0 <= i < |employees| && NextId(employees) == employees[i].id + 1
    ensures forall i :: 0 <= i < |employees| ==> employees[i].id + 1 <= NextId(employees)
    ensures forall e :: e in employees ==> e.id != NextId(employees)
  {
    assert NextId(employees) == employees[|employees| - 1].id + 1;
  }

  /** Ids out of order: the last id plus one is an id already in use. */
  lemma NextIdCanCollide()
    ensures var es := [Employee(2, "a", 0, "", "", false), Employee(3, "b", 0, "", "", false), Employee(1, "c", 0, "", "", false)];
      NextId(es) == es[0].id
  {
  }

  /** The row `handleCreate` adds for the given answers. */
  function NewRow(t: Table, a: Answers): (r: Employee)
    requires !Falsy(a.name)
    ensures r.id == NextId(t.employees) && r.name == a.name.value
    ensures r.age == AgeOf(a.age) && r.joinDate == TextOf(a.joinDate) && r.department == TextOf(a.department)
    ensures r.fullTime <==> FullTimeOf(a.fullTime)
  {
    Record(NextId(t.employees), a.name.value, a)
  }

  /** `handleCreate` as written: a falsy name leaves the table alone; otherwise one
      record is appended and the page becomes the page count computed BEFORE the
      append, the value captured when the handler was made. */
  function CreateAsWritten(t: Table, a: Answers): (r: Table)
    ensures Falsy(a.name) ==> r == t
    ensures !Falsy(a.name) ==> r.employees == t.employees + [NewRow(t, a)] && r.page == TotalPages(t)
  {
    if Falsy(a.name) then t
    else Table(t.employees + [NewRow(t, a)], TotalPages(t))
  }

  /** When the table fills its last page exactly, the created record lands on a
      new page, but the page shown is the old last page, so the new row is not
      visible. */
  lemma StalePageHidesNewRow(t: Table, a: Answers)
    requires AscendingIds(t.employees) && !Falsy(a.name)
    requires |t.employees| > 0 && |t.employees| % RowsPerPage == 0
    ensures NewRow(t, a) !in Visible(CreateAsWritten(t, a))
  {
    var n := |t.employees|;
    var k := n / RowsPerPage;
    assert n == k * RowsPerPage;
    var tp := TotalPages(t);
    assert tp == k;
    var r := CreateAsWritten(t, a);
    var start := Paging.PageStart(tp, RowsPerPage);
    assert start == n - RowsPerPage;
    var v := Visible(r);
    assert v == r.employees[start..n];
    forall i | 0 <= i < |v| ensures v[i] != NewRow(t, a) {
      assert v[i] == t.employees[start + i];
    }
  }

  /** `handleCreate` as intended: as written, except that the page shown is the
      last page of the grown table, where the new row is. */
  function Create(t: Table, a: Answers): (r: Table)
    ensures Falsy(a.name) ==> r == t
    ensures !Falsy(a.name) ==>
      && r.employees == t.employees + [NewRow(t, a)]
      && r.page == TotalPages(r)
  {
    if Falsy(a.name) then t
    else
      var es := t.employees + [NewRow(t, a)];
      Table(es, TotalPages(Table(es, 1)))
  }

  /** After a create the new row is the last row on the page shown. */
  lemma CreateShowsNewRow(t: Table, a: Answers)
    requires !Falsy(a.name)
    ensures var v := Visible(Create(t, a)); |v| > 0 && v[|v| - 1] == NewRow(t, a)
  {
    var r := Create(t, a);
    var n := |r.employees|;
    var tp := TotalPages(r);
    var start := Paging.PageStart(tp, RowsPerPage);
    Paging.StartNonNegative(tp, RowsPerPage);
    assert start < n;
    assert n <= start + RowsPerPage;
    var v := Visible(r);
    assert v == r.employees[start..n];
  }

  /** A create keeps ids ascending (so distinct) and the page in range, and it
      adds exactly one record, at the end. */
  lemma CreateKeepsValid(t: Table, a: Answers)
    requires Valid(t)
    ensures Valid(Create(t, a))
    ensures !Falsy(a.name) ==>
      |Create(t, a).employees| == |t.employees| + 1 && Create(t, a).employees[..|t.employees|] == t.employees
  {
    var r := Create(t, a);
    if !Falsy(a.name) {
      assert r.employees[..|t.employees|] == t.employees;
    }
  }

  /** The create as written keeps the invariant too: the stale page is still a
      page of the grown table, though not the one holding the new row. */
  lemma CreateAsWrittenKeepsValid(t: Table, a: Answers)
    requires Valid(t)
    ensures Valid(CreateAsWritten(t, a))
  {
    var r := CreateAsWritten(t, a);
    if !Falsy(a.name) {
      var tp, tq := TotalPages(t), TotalPages(r);
      if tp > 1 {
        assert (tp - 1) * RowsPerPage < |t.employees| < |r.employees| <= tq * RowsPerPage;
        Paging.MulLessCancel(tp - 1, tq, RowsPerPage);
      }
    }
  }

  function ReplaceRecord(id: int, updated: Employee): Employee -> Employee {
    (e: Employee) => if e.id == id then updated else e
  }

  /** The record `handleEdit` saves for `employee`: its id kept, the other fields
      from the answers. */
  function Edited(employee: Employee, a: Answers): (r: Employee)
    requires !Falsy(a.name)
    ensures r.id == employee.id && r.name == a.name.value
    ensures r.age == AgeOf(a.age) && r.joinDate == TextOf(a.joinDate) && r.department == TextOf(a.department)
    ensures r.fullTime <==> FullTimeOf(a.fullTime)
  {
    Record(employee.id, a.name.value, a)
  }

  /** `handleEdit(employee)`: a falsy name leaves the table alone; otherwise every
      record with the employee's id is replaced by the edited one, the rest and
      the page stay. */
  function Edit(t: Table, employee: Employee, a: Answers): (r: Table)
    ensures Falsy(a.name) ==> r == t
    ensures r.page == t.page && |r.employees| == |t.employees|
    ensures !Falsy(a.name) ==> forall i :: 0 <= i < |t.employees| ==>
      r.employees[i] == (if t.employees[i].id == employee.id then Edited(employee, a) else t.employees[i])
    ensures forall i :: 0 <= i < |t.employees| ==> r.employees[i].id == t.employees[i].id
  {
    if Falsy(a.name) then t
    else t.(employees := Seqs.Map(t.employees, ReplaceRecord(employee.id, Edited(employee, a))))
  }

  /** The answers the edit prompts start with: the record's own values, with the
      age written out as text and the flag as "yes" or "no". */
  function Defaults(e: Employee): Answers {
    Answers(Some(e.name), Some(JsValues.IntToString(e.age)), Some(e.joinDate), Some(e.department),
            Some(if e.fullTime then "yes" else "no"))
  }

  /** The age prompt offered the age as text gives the age back. */
  lemma AgeOfSpelledAge(n: int)
    ensures AgeOf(Some(JsValues.IntToString(n))) == n
  {
    JsValues.ParseIntToString(n);
  }

  /** The full-time prompt offered "yes" or "no" gives the flag back. */
  lemma FullTimeOfSpelledFlag(b: bool)
    ensures FullTimeOf(Some(if b then "yes" else "no")) == b
  {
    if b {
      assert Text.Lower("yes") == "yes";
    } else {
      assert Text.Lower("no")[0] == 'n';
    }
  }

  /** Accepting every prompt as offered gives back the record being edited. */
  lemma EditDefaultsKeepRecord(e: Employee)
    requires e.name != ""
    ensures Edited(e, Defaults(e)) == e
  {
    AgeOfSpelledAge(e.age);
    FullTimeOfSpelledFlag(e.fullTime);
  }

  /** So editing a listed record and accepting every prompt changes nothing. */
  lemma EditDefaultsIsNoOp(t: Table, e: Employee)
    requires AscendingIds(t.employees) && e in t.employees && e.name != ""
    ensures Edit(t, e, Defaults(e)) == t
  {
    EditDefaultsKeepRecord(e);
    var r := Edit(t, e, Defaults(e));
    forall i | 0 <= i < |t.employees| ensures r.employees[i] == t.employees[i] {
      if t.employees[i].id == e.id {
        var j :| 0 <= j < |t.employees| && t.employees[j] == e;
        assert i == j;
      }
    }
  }

  function KeepOthers(id: int): Employee -> bool {
    (e: Employee) => e.id != id
  }

  /** `handleDelete(id)`: a declined confirmation leaves the table alone; otherwise
      the records with that id go, the rest keep their order, and page 1 is shown. */
  function Delete(t: Table, id: int, confirmed: bool): (r: Table)
    ensures !confirmed ==> r == t
    ensures confirmed ==>
      && Seqs.IsSubseq(r.employees, t.employees)
      && (forall e :: e in r.employees <==> e in t.employees && e.id != id)
      && r.page == 1
  {
    if !confirmed then t
    else Table(Seqs.Filter(t.employees, KeepOthers(id)), 1)
  }

  /** With distinct ids a confirmed delete removes one record when the id is
      listed and none otherwise. */
  lemma DeleteRemovesOne(t: Table, id: int)
    requires AscendingIds(t.employees)
    ensures |Delete(t, id, true).employees| ==
      if exists i :: 0 <= i < |t.employees| && t.employees[i].id == id then |t.employees| - 1 else |t.employees|
  {
    Seqs.FilterOutKey(t.employees, IdOf, id, KeepOthers(id));
  }

  /** Keeping some records of an ascending list leaves it ascending. */
  lemma {:induction false} FilterKeepsAscending(s: seq<Employee>, p: Employee -> bool)
    requires AscendingIds(s)
    ensures AscendingIds(Seqs.Filter(s, p))
    decreases |s|
  {
    if |s| > 0 {
      var rest := s[1..];
      AscendingTail(s);
      FilterKeepsAscending(rest, p);
      Seqs.FilterCons(s, p);
      if p(s[0]) {
        FirstBelowKept(s, p);
        ConsAscending(s[0], Seqs.Filter(rest, p));
      }
    }
  }

  /** The first record's id is below the ids of the later records a filter keeps. */
  lemma FirstBelowKept(s: seq<Employee>, p: Employee -> bool)
    requires |s| > 0 && AscendingIds(s)
    ensures forall j :: 0 <= j < |Seqs.Filter(s[1..], p)| ==> s[0].id < Seqs.Filter(s[1..], p)[j].id
  {
    var rest := s[1..];
    var fr := Seqs.Filter(rest, p);
    forall j | 0 <= j < |fr| ensures s[0].id < fr[j].id {
      assert fr[j] in rest;
      var k :| 0 <= k < |rest| && rest[k] == fr[j];
      assert rest[k] == s[k + 1];
    }
  }

  lemma AscendingTail(s: seq<Employee>)
    requires |s| > 0 && AscendingIds(s)
    ensures AscendingIds(s[1..])
  {
    forall i, j | 0 <= i < j < |s| - 1 ensures s[1..][i].id < s[1..][j].id {
      assert s[1..][i] == s[i + 1] && s[1..][j] == s[j + 1];
    }
  }

  lemma ConsAscending(x: Employee, s: seq<Employee>)
    requires AscendingIds(s)
    requires forall j :: 0 <= j < |s| ==> x.id < s[j].id
    ensures AscendingIds([x] + s)
  {
    var r := [x] + s;
    forall i, j | 0 <= i < j < |r| ensures r[i].id < r[j].id {
      assert r[j] == s[j - 1];
      if i > 0 {
        assert r[i] == s[i - 1];
      }
    }
  }

  /** `handlePrev`: one page back, never below 1. */
  function Prev(t: Table): (r: Table)
    ensures r.employees == t.employees
    ensures r.page >= 1 && (t.page > 1 ==> r.page == t.page - 1)
    ensures t.page <= 1 ==> r.page == 1
  {
    t.(page := Paging.Prev(t.page))
  }

  /** `handleNext`: one page on, never past the last page. */
  function Next(t: Table): (r: Table)
    ensures r.employees == t.employees
    ensures r.page <= TotalPages(t) && (t.page < TotalPages(t) ==> r.page == t.page + 1)
    ensures t.page >= TotalPages(t) ==> r.page == TotalPages(t)
  {
    t.(page := Paging.Next(t.page, TotalPages(t)))
  }

  datatype Event =
    | Refreshed
    | Created(answers: Answers)
    | EditedRow(employee: Employee, answers: Answers)
    | Deleted(id: int, confirmed: bool)
    | PrevClicked
    | NextClicked

  /** The table's handlers as written. */
  function Step(usersData: seq<Employee>, t: Table, e: Event): Table {
    match e
    case Refreshed => Refresh(usersData)
    case Created(a) => CreateAsWritten(t, a)
    case EditedRow(emp, a) => Edit(t, emp, a)
    case Deleted(id, ok) => Delete(t, id, ok)
    case PrevClicked => Prev(t)
    case NextClicked => Next(t)
  }

  /** The handlers with the corrected create. */
  function CorrectedStep(usersData: seq<Employee>, t: Table, e: Event): Table {
    match e
    case Refreshed => Refresh(usersData)
    case Created(a) => Create(t, a)
    case EditedRow(emp, a) => Edit(t, emp, a)
    case Deleted(id, ok) => Delete(t, id, ok)
    case PrevClicked => Prev(t)
    case NextClicked => Next(t)
  }

  /** Starting from sample data listed by id, every action keeps the ids ascending
      (so distinct, and the next id fresh) and the page shown in range. */
  lemma StepPreservesValid(usersData: seq<Employee>, t: Table, e: Event)
    requires AscendingIds(usersData) && Valid(t)
    ensures Valid(Step(usersData, t, e))
    ensures Valid(CorrectedStep(usersData, t, e))
  {
    match e
    case Created(a) =>
      CreateAsWrittenKeepsValid(t, a);
      CreateKeepsValid(t, a);
    case Deleted(id, ok) =>
      if ok {
        FilterKeepsAscending(t.employees, KeepOthers(id));
      }
    case PrevClicked => Paging.PrevNextStayInRange(t.page, TotalPages(t));
    case NextClicked => Paging.PrevNextStayInRange(t.page, TotalPages(t));
    case _ =>
  }
}
