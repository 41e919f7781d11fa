/** The handlers of the prescription panel, without React's state plumbing:
    each takes the current prescription and returns the next one (or the
    rows to store). */
module PrescriptionDisplay {
  import opened Wrappers
  import opened Types
  import opened DosageTokens

  // ---------------------------------------------------------------------
  // Editing one field of one dose
  // ---------------------------------------------------------------------

  /** The two inputs a dose shows: its title and its description. */
  datatype DoseField = CustomTitle | CustomDescription

  function FieldOf(d: MedicineDosage, f: DoseField): string {
    match f
    case CustomTitle => d.customTitle
    case CustomDescription => d.customDescription
  }

  /** `{ ...dose, [field]: value }` */
  function WithField(d: MedicineDosage, f: DoseField, value: string): (r: MedicineDosage)
    ensures FieldOf(r, f) == value
    ensures r.medicine == d.medicine
    ensures forall g :: g != f ==> FieldOf(r, g) == FieldOf(d, g)
  {
    match f
    case CustomTitle => d.(customTitle := value)
    case CustomDescription => d.(customDescription := value)
  }

  /** `q` is `p` except, at most, for field `f` of entry `index` of the list
      of `c`: the lists keep their lengths, the entry keeps its medicine and
      its other field, and every other entry and category is untouched. */
  predicate OnlyFieldChanged(p: Prescription, q: Prescription, c: Category, index: nat, f: DoseField) {
    && index < |Get(p, c)| == |Get(q, c)|
    && Get(q, c)[index].medicine == Get(p, c)[index].medicine
    && (forall g :: g != f ==> FieldOf(Get(q, c)[index], g) == FieldOf(Get(p, c)[index], g))
    && (forall j :: 0 <= j < |Get(p, c)| && j != index ==> Get(q, c)[j] == Get(p, c)[j])
    && (forall d :: d != c ==> Get(q, d) == Get(p, d))
  }

  /** `handleMedicineDosageChange`: the input `f` of entry `index` in the list
      of `c` now holds `value`. */
  function UpdateDosageField(p: Prescription, c: Category, index: nat, f: DoseField, value: string): (r: Prescription)
    requires index < |Get(p, c)|
    ensures OnlyFieldChanged(p, r, c, index, f)
    ensures FieldOf(Get(r, c)[index], f) == value
    ensures WellFormed(p) ==> WellFormed(r)
  {
    var list := Get(p, c);
    var r := Set(p, c, list[index := WithField(list[index], f, value)]);
    if WellFormed(p) then
      SetKeepsWellFormed(p, c, list[index := WithField(list[index], f, value)]);
      r
    else r
  }

  /** Replacing the list of `c` by doses of category `c` keeps every dose in
      its own category's list. */
  lemma SetKeepsWellFormed(p: Prescription, c: Category, list: seq<MedicineDosage>)
    requires WellFormed(p)
    requires forall i :: 0 <= i < |list| ==> list[i].medicine.category == c
    ensures WellFormed(Set(p, c, list))
  {
    var r := Set(p, c, list);
    forall d: Category, i | 0 <= i < |Get(r, d)|
      ensures Get(r, d)[i].medicine.category == d
    {
      if d != c {
        assert Get(r, d) == Get(p, d);
      }
    }
  }

  /** Typing the value a field already holds leaves the prescription as it
      is, and of two edits of the same field the later one wins. */
  lemma UpdateDosageFieldFacts(p: Prescription, c: Category, index: nat, f: DoseField, v: string, w: string)
    requires index < |Get(p, c)|
    ensures UpdateDosageField(p, c, index, f, FieldOf(Get(p, c)[index], f)) == p
    ensures UpdateDosageField(UpdateDosageField(p, c, index, f, v), c, index, f, w)
      == UpdateDosageField(p, c, index, f, w)
  {
    var list := Get(p, c);
    var d := list[index];
    WithFieldFacts(d, f, v, w);
    assert list[index := d] == list;
    SetGet(p, c);
    var q := UpdateDosageField(p, c, index, f, v);
    assert Get(q, c) == list[index := WithField(d, f, v)];
    assert Get(q, c)[index := WithField(WithField(d, f, v), f, w)] == list[index := WithField(d, f, w)];
    SetTwice(p, c, list[index := WithField(d, f, v)], list[index := WithField(d, f, w)]);
  }

  /** Writing a field's own value back is no change, and the later of two
      writes to one field wins. */
  lemma WithFieldFacts(d: MedicineDosage, f: DoseField, v: string, w: string)
    ensures WithField(d, f, FieldOf(d, f)) == d
    ensures WithField(WithField(d, f, v), f, w) == WithField(d, f, w)
  {
  }

  /** Of two replacements of the same list, the later one wins. */
  lemma SetTwice(p: Prescription, c: Category, a: seq<MedicineDosage>, b: seq<MedicineDosage>)
    ensures Set(Set(p, c, a), c, b) == Set(p, c, b)
  {
    Extensionality(Set(Set(p, c, a), c, b), Set(p, c, b));
  }

  // ---------------------------------------------------------------------
  // Atomic deletion of a dosage token inside a dose description
  // ---------------------------------------------------------------------

  /** `handleDescriptionKeyDown` on the description of entry `index` in the
      list of `c`: `None` lets the key take its ordinary effect; otherwise the
      description loses one whole token at the cursor, nothing else in the
      prescription changes, and the cursor moves to where the token began. */
  function ApplyDescriptionKey(p: Prescription, c: Category, index: nat, cursor: nat, key: Keystroke)
    : (r: Option<(Prescription, nat)>)
    requires index < |Get(p, c)|
    ensures var desc := Get(p, c)[index].customDescription;
      r.None? <==> key.OtherKey? || forall t :: t in Tokens(desc) ==> !AtBoundary(t, cursor, key)
    ensures r.Some? ==> OnlyFieldChanged(p, r.value.0, c, index, CustomDescription)
    ensures r.Some? ==>
      var desc := Get(p, c)[index].customDescription;
      var edit := Edit(Get(r.value.0, c)[index].customDescription, r.value.1);
      exists t :: t in Tokens(desc) && AtBoundary(t, cursor, key) && Removes(desc, t, edit)
  {
    var desc := Get(p, c)[index].customDescription;
    match HandleDeletionKey(desc, cursor, key)
    case None => None
    case Some(e) => Some((UpdateDosageField(p, c, index, CustomDescription, e.value), e.cursor))
  }

  // ---------------------------------------------------------------------
  // Reordering by drag and drop
  // ---------------------------------------------------------------------

  /** The list with the entries at `i` and `j` exchanged. */
  function Swap<T>(s: seq<T>, i: nat, j: nat): (r: seq<T>)
    requires i < |s| && j < |s|
    ensures |r| == |s| && r[i] == s[j] && r[j] == s[i]
    ensures forall k :: 0 <= k < |s| && k != i && k != j ==> r[k] == s[k]
    ensures multiset(r) == multiset(s)
  {
    s[i := s[j]][j := s[i]]
  }

  /** `handleDragDrop`: an entry of the list named `dragCategory` dropped on
      entry `dropIndex` of the list of `category`. A drop on another
      category's list is ignored; otherwise the two entries change places and
      every other list is kept. */
  function DragDrop(p: Prescription, dragCategory: string, dragIndex: nat, category: Category, dropIndex: nat)
    : (r: Prescription)
    requires dragCategory == Key(category) ==>
      dragIndex < |Get(p, category)| && dropIndex < |Get(p, category)|
    ensures dragCategory != Key(category) ==> r == p
    ensures dragCategory == Key(category) ==>
      && Get(r, category) == Swap(Get(p, category), dragIndex, dropIndex)
      && (forall d :: d != category ==> Get(r, d) == Get(p, d))
    ensures multiset(AllDoses(r)) == multiset(AllDoses(p))
    ensures WellFormed(p) ==> WellFormed(r)
  {
    if dragCategory != Key(category) then p
    else
      var list := Swap(Get(p, category), dragIndex, dropIndex);
      var r := Set(p, category, list);
      DragDropKeepsDoses(p, r, category);
      if WellFormed(p) then
        SwapKeepsCategory(Get(p, category), category, dragIndex, dropIndex);
        SetKeepsWellFormed(p, category, list);
        r
      else r
  }

  /** Exchanging two entries of a list of doses of category `c` leaves a
      list of doses of category `c`. */
  lemma SwapKeepsCategory(s: seq<MedicineDosage>, c: Category, i: nat, j: nat)
    requires i < |s| && j < |s|
    requires forall k :: 0 <= k < |s| ==> s[k].medicine.category == c
    ensures forall k :: 0 <= k < |s| ==> Swap(s, i, j)[k].medicine.category == c
  {
    var r := Swap(s, i, j);
    forall k | 0 <= k < |s| ensures r[k].medicine.category == c {
      if k == i {
        assert r[k] == s[j];
      } else if k == j {
        assert r[k] == s[i];
      } else {
        assert r[k] == s[k];
      }
    }
  }

  /** Replacing one list by a permutation of itself permutes all doses. */
  lemma DragDropKeepsDoses(p: Prescription, q: Prescription, c: Category)
    requires multiset(Get(q, c)) == multiset(Get(p, c))
    requires forall d :: d != c ==> Get(q, d) == Get(p, d)
    ensures multiset(AllDoses(q)) == multiset(AllDoses(p))
  {
    assert forall d :: multiset(Get(q, d)) == multiset(Get(p, d));
    assert multiset(q.oral) == multiset(p.oral) by { assert Get(q, Oral) == q.oral; }
    assert multiset(q.injectable) == multiset(p.injectable) by { assert Get(q, Injectable) == q.injectable; }
    assert multiset(q.topic) == multiset(p.topic) by { assert Get(q, Topic) == q.topic; }
    assert multiset(q.topicOftamologic) == multiset(p.topicOftamologic)
      by { assert Get(q, TopicOftamologic) == q.topicOftamologic; }
    assert multiset(q.topicOtologic) == multiset(p.topicOtologic)
      by { assert Get(q, TopicOtologic) == q.topicOtologic; }
    assert multiset(q.nasal) == multiset(p.nasal) by { assert Get(q, Nasal) == q.nasal; }
    assert multiset(q.inhalational) == multiset(p.inhalational)
      by { assert Get(q, Inhalational) == q.inhalational; }
  }

  /** Exchanging the same two entries twice restores the list, and
      exchanging an entry with itself changes nothing. */
  lemma SwapUndo<T>(s: seq<T>, i: nat, j: nat)
    requires i < |s| && j < |s|
    ensures Swap(Swap(s, i, j), i, j) == s
    ensures Swap(s, i, i) == s
  {
    var t := Swap(Swap(s, i, j), i, j);
    assert forall k :: 0 <= k < |s| ==> t[k] == s[k];
  }

  /** Dropping an entry on itself changes nothing, and repeating the same
      drag and drop puts both entries back. */
  lemma DragDropUndo(p: Prescription, category: Category, dragIndex: nat, dropIndex: nat)
    requires dragIndex < |Get(p, category)| && dropIndex < |Get(p, category)|
    ensures DragDrop(p, Key(category), dragIndex, category, dragIndex) == p
    ensures DragDrop(DragDrop(p, Key(category), dragIndex, category, dropIndex),
                     Key(category), dragIndex, category, dropIndex) == p
  {
    var list := Get(p, category);
    SwapUndo(list, dragIndex, dropIndex);
    SetGet(p, category);
    var swapped := Swap(list, dragIndex, dropIndex);
    SetTwice(p, category, swapped, list);
  }

  // ---------------------------------------------------------------------
  // Saving: one dose row per dose
  // ---------------------------------------------------------------------

  /** A row of the dose table: the saved prescription, the medicine, and the
      dose's own title and description. */
  datatype DoseRow = DoseRow(
    prescriptionId: int,
    medicineId: int,
    customTitle: string,
    customDescription: string)

  function RowOf(prescriptionId: int, d: MedicineDosage): DoseRow {
    DoseRow(prescriptionId, d.medicine.id, d.customTitle, d.customDescription)
  }

  /** `Object.values(prescription)`: the seven lists in declaration order. */
  function Values(p: Prescription): (ls: seq<seq<MedicineDosage>>)
    ensures |ls| == 7
    ensures forall k :: 0 <= k < 7 ==> ls[k] == Get(p, AllCategories[k])
  {
    [p.oral, p.injectable, p.topic, p.topicOftamologic, p.topicOtologic, p.nasal, p.inhalational]
  }

  /** `lists.map(list => list.map(row)).flat()` */
  function FlatRows(prescriptionId: int, lists: seq<seq<MedicineDosage>>): (rows: seq<DoseRow>)
    decreases |lists|
  {
    if |lists| == 0 then []
    else
      seq(|lists[0]|, k requires 0 <= k < |lists[0]| => RowOf(prescriptionId, lists[0][k]))
        + FlatRows(prescriptionId, lists[1..])
  }

  /** The doses of the lists, one after the other. */
  function Flat(lists: seq<seq<MedicineDosage>>): seq<MedicineDosage>
    decreases |lists|
  {
    if |lists| == 0 then [] else lists[0] + Flat(lists[1..])
  }

  /** Mapping each list and then flattening is flattening and then mapping. */
  lemma {:induction false} FlatRowsFollowDoses(prescriptionId: int, lists: seq<seq<MedicineDosage>>)
    ensures |FlatRows(prescriptionId, lists)| == |Flat(lists)|
    ensures forall k :: 0 <= k < |Flat(lists)| ==>
      FlatRows(prescriptionId, lists)[k] == RowOf(prescriptionId, Flat(lists)[k])
    decreases |lists|
  {
    if |lists| > 0 {
      FlatRowsFollowDoses(prescriptionId, lists[1..]);
    }
  }

  lemma ValuesFlattenToAllDoses(p: Prescription)
    ensures Flat(Values(p)) == AllDoses(p)
  {
    FlatValues(p);
    AllDosesNested(p);
  }

  lemma FlatValues(p: Prescription)
    ensures Flat(Values(p)) == p.oral + (p.injectable + (p.topic + (p.topicOftamologic
      + (p.topicOtologic + (p.nasal + p.inhalational)))))
  {
    var l6 := [p.inhalational];
    FlatCons(p.inhalational, []);
    var l5 := [p.nasal] + l6;
    FlatCons(p.nasal, l6);
    var l4 := [p.topicOtologic] + l5;
    FlatCons(p.topicOtologic, l5);
    var l3 := [p.topicOftamologic] + l4;
    FlatCons(p.topicOftamologic, l4);
    var l2 := [p.topic] + l3;
    FlatCons(p.topic, l3);
    var l1 := [p.injectable] + l2;
    FlatCons(p.injectable, l2);
    var l0 := [p.oral] + l1;
    FlatCons(p.oral, l1);
    assert Values(p) == l0;
  }

  lemma AllDosesNested(p: Prescription)
    ensures AllDoses(p) == p.oral + (p.injectable + (p.topic + (p.topicOftamologic
      + (p.topicOtologic + (p.nasal + p.inhalational)))))
  {
  }

  lemma FlatCons(head: seq<MedicineDosage>, tail: seq<seq<MedicineDosage>>)
    ensures Flat([head] + tail) == head + Flat(tail)
  {
    assert ([head] + tail)[1..] == tail;
  }

  /** The dose-table part of `savePrescription`. `header` is the outcome of
      inserting the prescription's own row: the new id, or `None` when that
      insert failed, in which case no dose row is written. Otherwise there is
      exactly one row per dose, in category order and list order within a
      category, each naming the new prescription. */
  function SavePrescription(p: Prescription, header: Option<int>): (rows: Option<seq<DoseRow>>)
    ensures rows.None? <==> header.None?
    ensures rows.Some? ==> |rows.value| == |AllDoses(p)|
    ensures rows.Some? ==> forall k :: 0 <= k < |rows.value| ==>
      && rows.value[k].prescriptionId == header.value
      && rows.value[k].medicineId == AllDoses(p)[k].medicine.id
      && rows.value[k].customTitle == AllDoses(p)[k].customTitle
      && rows.value[k].customDescription == AllDoses(p)[k].customDescription
  {
    match header
    case None => None
    case Some(id) =>
      FlatRowsFollowDoses(id, Values(p));
      ValuesFlattenToAllDoses(p);
      Some(FlatRows(id, Values(p)))
  }
}
