/** The generic edit dialog (`src/components/EditModal.jsx`). The edited object is
    a list of fields in key order; the dialog copies the object it is given, lets
    single fields change, refuses a blank name on submit, turns fields that were
    numbers back into numbers, and lists the fields with `id` first and `name`
    second. */
module EditForm {
  import opened Basics
  import Text
  import Seqs
  import Sorting
  import JsValues

  type Value = JsValues.Value

  datatype Field = Field(key: string, value: Value)

  /** An object as the list of its own properties, in enumeration order. */
  type Form = seq<Field>

  function KeyOf(f: Field): string {
    f.key
  }

  function Keys(form: Form): (r: seq<string>)
    ensures |r| == |form|
    ensures forall i :: 0 <= i < |form| ==> r[i] == form[i].key
  {
    Seqs.Map(form, KeyOf)
  }

  /** An object has each property once. */
  ghost predicate Valid(form: Form) {
    Seqs.DistinctKeys(form, KeyOf)
  }

  /** The value of property `key`, if the object has one. */
  function Lookup(form: Form, key: string): (r: Option<Value>)
    ensures r.Some? <==> key in Keys(form)
    ensures r.Some? ==> exists i :: 0 <= i < |form| && form[i] == Field(key, r.value)
  {
    if |form| == 0 then None
    else if form[0].key == key then Some(form[0].value)
    else
      var r := Lookup(form[1..], key);
      assert Keys(form) == [form[0].key] + Keys(form[1..]);
      if r.Some? then
        var i :| 0 <= i < |form[1..]| && form[1..][i] == Field(key, r.value);
        assert form[i + 1] == Field(key, r.value);
        r
      else r
  }

  /** The dialog's copy of the object it is opened with (`{}` when there is none). */
  function Init(employee: Option<Form>): (r: Form)
    ensures employee.None? ==> r == []
    ensures employee.Some? ==> r == employee.value
  {
    employee.GetOr([])
  }

  /** `handleChange(key, value)`: `{ ...form, [key]: value }`. An existing property
      keeps its place and takes the new value; a new one is added at the end. */
  function Change(form: Form, key: string, value: Value): (r: Form)
    ensures key in Keys(form) ==> Keys(r) == Keys(form)
    ensures key !in Keys(form) ==> Keys(r) == Keys(form) + [key]
    ensures forall i :: 0 <= i < |form| && form[i].key != key ==> r[i] == form[i]
    ensures forall i :: 0 <= i < |r| && r[i].key == key ==> r[i].value == value
  {
    if key in Keys(form) then Seqs.Map(form, SetIfKey(key, value))
    else form + [Field(key, value)]
  }

  function SetIfKey(key: string, value: Value): Field -> Field {
    (f: Field) => if f.key == key then Field(key, value) else f
  }

  /** After a change the property has the new value and every other property
      keeps its old one. */
  lemma ChangeThenLookup(form: Form, key: string, value: Value, other: string)
    requires Valid(form)
    ensures Lookup(Change(form, key, value), key) == Some(value)
    ensures other != key ==> Lookup(Change(form, key, value), other) == Lookup(form, other)
    ensures Valid(Change(form, key, value))
  {
    ChangeKeepsValid(form, key, value);
    var r := Change(form, key, value);
    ValidLookup(r, key);
    if other != key {
      ChangeKeepsOther(form, key, value, other);
    }
  }

  lemma ChangeKeepsValid(form: Form, key: string, value: Value)
    requires Valid(form)
    ensures Valid(Change(form, key, value))
  {
    var r := Change(form, key, value);
    forall i, j | 0 <= i < j < |r| ensures r[i].key != r[j].key {
      assert Keys(r)[i] == r[i].key && Keys(r)[j] == r[j].key;
      if j < |form| {
        assert Keys(form)[i] == form[i].key && Keys(form)[j] == form[j].key;
      }
    }
  }

  lemma ChangeKeepsOther(form: Form, key: string, value: Value, other: string)
    requires Valid(form) && Valid(Change(form, key, value)) && other != key
    ensures Lookup(Change(form, key, value), other) == Lookup(form, other)
  {
    var r := Change(form, key, value);
    ValidLookup(form, other);
    ValidLookup(r, other);
    if other in Keys(form) {
      var i :| 0 <= i < |form| && form[i].key == other;
      assert r[i] == form[i];
    }
  }

  /** In an object each present property has one place, and `Lookup` reads it. */
  lemma ValidLookup(form: Form, key: string)
    ensures Valid(form) ==> forall i :: 0 <= i < |form| && form[i].key == key ==> Lookup(form, key) == Some(form[i].value)
  {
  }

  /** `String(form.name).trim()` is empty: submitting is refused exactly when the
      object has a `name` and it reads as blank text. */
  predicate NameBlank(form: Form) {
    var name := Lookup(form, "name");
    name.Some? && Text.Trim(JsValues.ToStr(name.value)) == ""
  }

  /** Only a text name can be blank: numbers, booleans and `null` spell as
      non-blank text. */
  lemma NameBlankIsBlankText(form: Form)
    ensures NameBlank(form) <==>
      exists s :: Lookup(form, "name") == Some(JsValues.Str(s)) && forall i :: 0 <= i < |s| ==> Text.IsSpace(s[i])
  {
    var name := Lookup(form, "name");
    if name.Some? && !name.value.Str? {
      var t := JsValues.ToStr(name.value);
      assert !Text.IsSpace(t[0]);
    }
  }

  /** Property `key` was a number in the object the dialog was opened with. */
  predicate WasNumber(original: Option<Form>, key: string) {
    original.Some? && var v := Lookup(original.value, key); v.Some? && v.value.Num?
  }

  /** `Number(v)`, with `NaN` read as 0. */
  function NumberOrZero(v: Value): (n: int)
    ensures JsValues.ToNumber(v).Some? ==> n == JsValues.ToNumber(v).value
    ensures JsValues.ToNumber(v).None? ==> n == 0
  {
    JsValues.ToNumber(v).GetOr(0)
  }

  function Normalizer(original: Option<Form>): Field -> Field {
    (f: Field) => if WasNumber(original, f.key) then Field(f.key, JsValues.Num(NumberOrZero(f.value))) else f
  }

  /** The object handed to `onSave`: the same properties in the same order; those
      that were numbers become numbers again, the rest are unchanged. */
  function Normalize(form: Form, original: Option<Form>): (r: Form)
    ensures Keys(r) == Keys(form)
    ensures forall i :: 0 <= i < |form| ==>
      r[i].value == (if WasNumber(original, form[i].key) then JsValues.Num(NumberOrZero(form[i].value))
                     else form[i].value)
  {
    Seqs.Map(form, Normalizer(original))
  }

  /** Normalising twice changes nothing more. */
  lemma NormalizeIdempotent(form: Form, original: Option<Form>)
    ensures Normalize(Normalize(form, original), original) == Normalize(form, original)
  {
    var r := Normalize(form, original);
    var rr := Normalize(r, original);
    assert |rr| == |Keys(rr)| == |Keys(r)| == |r|;
    forall i | 0 <= i < |r| ensures rr[i] == r[i] {
      assert Keys(r)[i] == Keys(form)[i];
    }
  }

  /** Submitting the untouched copy hands back the original object. */
  lemma NormalizeUntouched(employee: Form)
    requires Valid(employee)
    ensures Normalize(Init(Some(employee)), Some(employee)) == employee
  {
    var r := Normalize(employee, Some(employee));
    assert |r| == |Keys(r)| == |Keys(employee)| == |employee|;
    forall i | 0 <= i < |employee| ensures r[i] == employee[i] {
      ValidLookup(employee, employee[i].key);
      assert Keys(r)[i] == Keys(employee)[i];
    }
  }

  datatype SubmitResult = Blocked | Saved(saved: Form)

  /** `handleSubmit`: a blank name blocks the save (and shows an alert); otherwise
      `onSave` receives the normalised object. */
  function Submit(form: Form, original: Option<Form>): (r: SubmitResult)
    ensures r.Blocked? <==> NameBlank(form)
    ensures r.Saved? ==> r.saved == Normalize(form, original)
  {
    if NameBlank(form) then Blocked else Saved(Normalize(form, original))
  }

  /** A form without a `name` is never refused. */
  lemma NoNameNeverBlocked(form: Form, original: Option<Form>)
    requires "name" !in Keys(form)
    ensures Submit(form, original).Saved?
  {
  }

  /** The field-order comparator: `id` before everything, then `name`, the rest
      equal. */
  function KeyCompare(a: string, b: string): int {
    if a == "id" then -1
    else if b == "id" then 1
    else if a == "name" then -1
    else if b == "name" then 1
    else 0
  }

  /** The place a key asks for: `id` 0, `name` 1, anything else 2. */
  function Rank(k: string): (r: nat)
    ensures r <= 2
    ensures r == 0 <==> k == "id"
    ensures r == 1 <==> k == "name"
  {
    if k == "id" then 0 else if k == "name" then 1 else 2
  }

  /** "The comparator allows `a` before `b`." */
  function KeyLe(a: string, b: string): bool {
    KeyCompare(a, b) <= 0
  }

  /** The comparator allows `a` before `b` exactly when `a` asks for an earlier or
      the same place. */
  lemma KeyLeIsRankOrder(a: string, b: string)
    ensures KeyLe(a, b) == (Rank(a) <= Rank(b))
  {
  }

  /** The keys in the order the dialog lists them: `Object.keys(form).sort(...)`. */
  function OrderedKeys(form: Form): (r: seq<string>)
    ensures multiset(r) == multiset(Keys(form))
  {
    Sorting.InsertionSort(Keys(form), KeyLe)
  }

  /** The fields are listed `id` first, then `name`, then the others in their own
      order. */
  lemma OrderedKeysLayout(form: Form)
    ensures OrderedKeys(form) ==
      Seqs.Filter(Keys(form), Sorting.RankIs(Rank, 0)) + Seqs.Filter(Keys(form), Sorting.RankIs(Rank, 1))
      + Seqs.Filter(Keys(form), Sorting.RankIs(Rank, 2))
  {
    forall a, b ensures KeyLe(a, b) == (Rank(a) <= Rank(b)) {
      KeyLeIsRankOrder(a, b);
    }
    Sorting.SortByRank(Keys(form), KeyLe, Rank);
  }

  /** In particular, an object with an `id` lists it first. */
  lemma IdListedFirst(form: Form)
    requires "id" in Keys(form)
    ensures OrderedKeys(form)[0] == "id"
  {
    OrderedKeysLayout(form);
    IdGroupIsId(Keys(form));
  }

  /** The keys asking for place 0 are all `id`, and there is one when `id` is present. */
  lemma IdGroupIsId(ks: seq<string>)
    requires "id" in ks
    ensures var ids := Seqs.Filter(ks, Sorting.RankIs(Rank, 0)); |ids| > 0 && ids[0] == "id"
  {
    var p := Sorting.RankIs(Rank, 0);
    assert Rank("id") == 0;
    assert p("id");
    var ids := Seqs.Filter(ks, p);
    assert "id" in ids;
    assert ids[0] in ids && p(ids[0]);
    assert Rank(ids[0]) == 0;
  }
}
