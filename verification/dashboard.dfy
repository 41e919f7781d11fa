/** The dashboard's pure logic: aligning a dose title, adding and removing a
    medicine, regrouping the stored dose rows of a saved prescription, and
    the medicine search. */
module Dashboard {
  import opened Wrappers
  import opened Text
  import opened Types
  import opened Seqs
  import PrescriptionDisplay

  // ---------------------------------------------------------------------
  // Title alignment: `formatTitle`
  // ---------------------------------------------------------------------

  /** The width a dose title is aligned to. */
  const TitleWidth: nat := 70

  /** The first argument of the first `replace`. It is a string, not a
      regular expression, so only this seven-character text is replaced. */
  const DashPattern: string := "/(-*)/g"

  function Max(a: int, b: int): int { if a < b then b else a }

  predicate NoDash(s: string) {
    forall k :: 0 <= k < |s| ==> s[k] != '-'
  }

  /** The first step of `formatTitle`: the first occurrence of the literal
      text `/(-*)/g`, if any, becomes one dash. Runs of dashes are left as
      they are. */
  function ReplaceDashPattern(title: string): (r: string)
    ensures !Contains(title, DashPattern) ==> r == title
    ensures Contains(title, DashPattern) ==>
      FirstIndex(title, DashPattern, 0).Some? &&
      var i := FirstIndex(title, DashPattern, 0).value;
      r == title[..i] + "-" + title[i + 7..]
    ensures Contains(title, DashPattern) ==> |r| == |title| - 6
  {
    ReplaceFirst(title, DashPattern, "-")
  }

  /** The number of dashes that replace the first dash of a title of length
      `n`. */
  function PadLength(n: nat): nat {
    Max(1, TitleWidth - n)
  }

  /** `formatTitle`: after the first step, the first dash is widened to
      `max(1, 70 - length)` dashes; nothing is appended, and a title without
      a dash is returned as the first step left it. With a dash, the text on
      either side of the first dash is kept and the result is at least 69
      characters long. */
  function FormatTitle(title: string): (r: string)
    ensures var t := ReplaceDashPattern(title);
      NoDash(t) ==> r == t
    ensures var t := ReplaceDashPattern(title);
      !NoDash(t) ==> |r| == Max(69, |t|) && exists i :: DashAt(t, r, i)
  {
    var t := ReplaceDashPattern(title);
    var r := ReplaceFirst(t, "-", Repeat('-', PadLength(|t|)));
    FirstDashFacts(t, r);
    r
  }

  /** `r` is `t` with its first dash, at `i`, widened to `PadLength(|t|)`
      dashes. */
  predicate DashAt(t: string, r: string, i: nat) {
    && i < |t| && t[i] == '-' && NoDash(t[..i])
    && |r| == |t| - 1 + PadLength(|t|)
    && r[..i] == t[..i]
    && (forall k :: i <= k < i + PadLength(|t|) ==> r[k] == '-')
    && r[i + PadLength(|t|)..] == t[i + 1..]
  }

  lemma FirstDashFacts(t: string, r: string)
    requires r == ReplaceFirst(t, "-", Repeat('-', PadLength(|t|)))
    ensures NoDash(t) ==> r == t
    ensures !NoDash(t) ==> |r| == Max(69, |t|) && exists i :: DashAt(t, r, i)
  {
    if NoDash(t) {
      forall i: nat | i <= |t| ensures !OccursAt(t, "-", i) {
        if i < |t| {
          DashOccurrence(t, i);
        }
      }
    } else {
      var k :| 0 <= k < |t| && t[k] == '-';
      DashOccurrence(t, k);
      var i: nat :| i + 1 <= |t| && OccursAt(t, "-", i) && (forall j: nat :: j < i ==> !OccursAt(t, "-", j))
        && r == t[..i] + Repeat('-', PadLength(|t|)) + t[i + 1..];
      FirstOccurrenceIsDashAt(t, r, i);
    }
  }

  /** A one-character occurrence of "-" is a dash. */
  lemma DashOccurrence(t: string, k: nat)
    requires k < |t|
    ensures OccursAt(t, "-", k) <==> t[k] == '-'
  {
    assert t[k..k + 1] == [t[k]];
  }

  /** Replacing the first occurrence of "-" widens the first dash. */
  lemma FirstOccurrenceIsDashAt(t: string, r: string, i: nat)
    requires i + 1 <= |t| && OccursAt(t, "-", i)
    requires forall j: nat :: j < i ==> !OccursAt(t, "-", j)
    requires r == t[..i] + Repeat('-', PadLength(|t|)) + t[i + 1..]
    ensures DashAt(t, r, i) && |r| == Max(69, |t|)
  {
    DashOccurrence(t, i);
    forall j | 0 <= j < i ensures t[..i][j] != '-' {
      DashOccurrence(t, j);
    }
  }

  /** `r` is `t` with its first dash replaced by the padding run. */
  lemma DashAtShape(t: string, r: string, i: nat)
    requires DashAt(t, r, i)
    ensures r == t[..i] + Repeat('-', PadLength(|t|)) + t[i + 1..]
  {
    var n := PadLength(|t|);
    assert r[i..i + n] == Repeat('-', n);
    assert r == r[..i] + r[i..i + n] + r[i + n..];
  }

  /** A title has one first dash. */
  lemma FirstDashUnique(t: string, i: nat, j: nat)
    requires i < |t| && t[i] == '-' && NoDash(t[..i])
    requires j < |t| && t[j] == '-' && NoDash(t[..j])
    ensures i == j
  {
  }

  /** A title that already has the width (or more) keeps its first dash as
      a single dash, so aligning an aligned title changes nothing. This holds
      for every title the first step leaves alone, that is every title
      without the literal text `/(-*)/g`. */
  lemma FormatTitleIdempotent(title: string)
    requires !Contains(title, DashPattern)
    ensures FormatTitle(FormatTitle(title)) == FormatTitle(title)
  {
    var r := FormatTitle(title);
    if !NoDash(title) {
      var i: nat :| DashAt(title, r, i);
      AlignedKeepsShape(title, r, i);
      NoPatternAfterWidening(title, r, i);
      var r2 := FormatTitle(r);
      var j: nat :| DashAt(r, r2, j);
      AlignedIsFixed(r, r2, i, j);
    }
  }

  /** An aligned title is at least 69 long and has its first dash where the
      title had it. */
  lemma AlignedKeepsShape(title: string, r: string, i: nat)
    requires DashAt(title, r, i)
    ensures |r| >= 69 && r[i] == '-' && NoDash(r[..i])
  {
    assert r[..i] == title[..i];
  }

  /** Widening the first dash cannot create the literal `/(-*)/g`: its only
      dash sits between `(` and `*`, so no occurrence can overlap a run of
      two or more dashes, and an occurrence beside the run was already in
      the title. */
  lemma NoPatternAfterWidening(t: string, r: string, i: nat)
    requires !Contains(t, DashPattern) && DashAt(t, r, i)
    ensures !Contains(r, DashPattern)
  {
    var n := PadLength(|t|);
    DashAtShape(t, r, i);
    if n == 1 {
      assert Repeat('-', 1) == [t[i]];
      assert t == t[..i] + [t[i]] + t[i + 1..];
      assert r == t;
    } else {
      forall w: nat | w <= |r| ensures !OccursAt(r, DashPattern, w) {
        if w + 7 <= |r| {
          if w + 7 <= i || w >= i + n {
            WindowBesideRun(t, r, i, w);
          } else {
            WindowOnRun(r, i, n, w);
          }
        }
      }
    }
  }

  /** A window beside the widened run is a window of the title. */
  lemma WindowBesideRun(t: string, r: string, i: nat, w: nat)
    requires !Contains(t, DashPattern) && DashAt(t, r, i)
    requires r == t[..i] + Repeat('-', PadLength(|t|)) + t[i + 1..]
    requires w + 7 <= |r| && (w + 7 <= i || w >= i + PadLength(|t|))
    ensures !OccursAt(r, DashPattern, w)
  {
    var n := PadLength(|t|);
    if w + 7 <= i {
      assert r[w..w + 7] == t[w..w + 7];
      assert !OccursAt(t, DashPattern, w);
    } else {
      var v := w - n + 1;
      assert r[w..w + 7] == t[v..v + 7];
      assert !OccursAt(t, DashPattern, v);
    }
  }

  /** A window meeting a run of two or more dashes holds a dash at an
      offset other than 2. */
  lemma WindowOnRun(r: string, i: nat, n: nat, w: nat)
    requires n >= 2 && i + n <= |r| && w + 7 <= |r|
    requires forall k :: i <= k < i + n ==> r[k] == '-'
    requires i < w + 7 && w < i + n
    ensures !OccursAt(r, DashPattern, w)
  {
    var k := if w < i then i else w;
    var k' := if k == w + 2 then k + 1 else k;
    PatternHasOneDash(k' - w);
    assert r[w..w + 7][k' - w] == r[k'];
  }

  lemma PatternHasOneDash(j: nat)
    requires j < 7 && j != 2
    ensures DashPattern[j] != '-'
  {
  }

  /** Widening the first dash of a title of 69 characters or more to one
      dash changes nothing. */
  lemma AlignedIsFixed(r: string, r2: string, i: nat, j: nat)
    requires |r| >= 69 && i < |r| && r[i] == '-' && NoDash(r[..i])
    requires DashAt(r, r2, j)
    ensures r2 == r
  {
    FirstDashUnique(r, i, j);
    assert PadLength(|r|) == 1;
    DashAtShape(r, r2, i);
    assert r == r[..i] + [r[i]] + r[i + 1..];
  }

  lemma NoSlashNoPattern(s: string)
    requires forall k :: 0 <= k < |s| ==> s[k] != '/'
    ensures !Contains(s, DashPattern)
  {
    forall i: nat | i <= |s| ensures !OccursAt(s, DashPattern, i) {
      if i + 7 <= |s| {
        assert s[i..i + 7][0] == s[i];
      }
    }
  }

  /** A run of dashes in an ordinary title survives: in `a--b` with no dash
      in `a` only the first dash is widened and the second stays. */
  lemma DashRunKept(a: string, b: string)
    requires NoDash(a) && !Contains(a + "--" + b, DashPattern)
    ensures FormatTitle(a + "--" + b) == a + Repeat('-', PadLength(|a| + 2 + |b|)) + "-" + b
  {
    var t := a + "--" + b;
    assert t[|a|] == '-';
    var r := FormatTitle(t);
    var i: nat :| DashAt(t, r, i);
    DashRunAt(a, b, t, r, i);
  }

  lemma DashRunAt(a: string, b: string, t: string, r: string, i: nat)
    requires NoDash(a) && t == a + "--" + b && DashAt(t, r, i)
    ensures r == a + Repeat('-', PadLength(|t|)) + "-" + b
  {
    assert t[..|a|] == a;
    FirstDashUnique(t, i, |a|);
    DashAtShape(t, r, i);
    assert t[i + 1..] == "-" + b;
  }

  // ---------------------------------------------------------------------
  // Adding and removing a medicine: `isInPrescription`, `toggleMedicine`
  // ---------------------------------------------------------------------

  /** Some dose of the list is of the medicine with this id. */
  predicate HasMedicine(list: seq<MedicineDosage>, id: int) {
    exists k :: 0 <= k < |list| && list[k].medicine.id == id
  }

  /** `isInPrescription`: the medicine's own category list has a dose with
      its id. */
  predicate IsInPrescription(p: Prescription, m: Medicine) {
    HasMedicine(Get(p, m.category), m.id)
  }

  function NotMedicine(id: int): MedicineDosage -> bool {
    (d: MedicineDosage) => d.medicine.id != id
  }

  /** The doses of `list` that are not of medicine `id`, in their order. */
  function WithoutMedicine(list: seq<MedicineDosage>, id: int): (r: seq<MedicineDosage>)
    ensures !HasMedicine(r, id)
    ensures forall d :: multiset(r)[d] == if d.medicine.id == id then 0 else multiset(list)[d]
  {
    FilterCounts(NotMedicine(id), list);
    Filter(NotMedicine(id), list)
  }

  /** The dose a medicine gets when it is added: its own description and
      its aligned title. */
  function NewDose(m: Medicine): MedicineDosage {
    MedicineDosage(m, FormatTitle(m.title), m.description)
  }

  /** `toggleMedicine`: a medicine already in its category list is removed
      (every dose of it); otherwise one new dose is appended at the end.
      Every other category keeps its list, and membership flips. */
  function ToggleMedicine(p: Prescription, m: Medicine): (r: Prescription)
    ensures IsInPrescription(p, m) ==> Get(r, m.category) == WithoutMedicine(Get(p, m.category), m.id)
    ensures !IsInPrescription(p, m) ==> Get(r, m.category) == Get(p, m.category) + [NewDose(m)]
    ensures forall c :: c != m.category ==> Get(r, c) == Get(p, c)
    ensures IsInPrescription(r, m) <==> !IsInPrescription(p, m)
    ensures WellFormed(p) ==> WellFormed(r)
  {
    var c := m.category;
    var list := Get(p, c);
    if HasMedicine(list, m.id) then
      Set(p, c, WithoutMedicine(list, m.id))
    else
      var r := Set(p, c, list + [NewDose(m)]);
      assert Get(r, c)[|list|].medicine.id == m.id;
      r
  }

  /** Adding a medicine and toggling it again gives back the prescription. */
  lemma ToggleTwiceRestores(p: Prescription, m: Medicine)
    requires !IsInPrescription(p, m)
    ensures ToggleMedicine(ToggleMedicine(p, m), m) == p
  {
    var c := m.category;
    var list := Get(p, c);
    var q := ToggleMedicine(p, m);
    assert Get(q, c) == list + [NewDose(m)];
    WithoutAddedDose(list, NewDose(m), m.id);
    var r := ToggleMedicine(q, m);
    assert Get(r, c) == list;
    Extensionality(r, p);
  }

  /** Removing a medicine whose only dose was just appended leaves the list
      as it was before. */
  lemma WithoutAddedDose(list: seq<MedicineDosage>, d: MedicineDosage, id: int)
    requires !HasMedicine(list, id) && d.medicine.id == id
    ensures WithoutMedicine(list + [d], id) == list
  {
    var f := NotMedicine(id);
    assert (list + [d])[..|list|] == list;
    assert Filter(f, list + [d]) == Filter(f, list);
    forall i | 0 <= i < |list| ensures f(list[i]) {
      assert list[i].medicine.id != id;
    }
    FilterKeepsAll(f, list);
  }

  // ---------------------------------------------------------------------
  // Loading a saved prescription: regrouping its dose rows
  // ---------------------------------------------------------------------

  function InCategory(c: Category): MedicineDosage -> bool {
    (d: MedicineDosage) => d.medicine.category == c
  }

  /** The doses of category `c`, in their order. */
  function OfCategory(ds: seq<MedicineDosage>, c: Category): seq<MedicineDosage> {
    Filter(InCategory(c), ds)
  }

  /** One step of the loader: the dose joins the end of its medicine's
      category list. */
  function AddDose(p: Prescription, d: MedicineDosage): Prescription {
    Set(p, d.medicine.category, Get(p, d.medicine.category) + [d])
  }

  /** The loop of `loadSavedPrescriptions` over the rows of one prescription,
      starting from the empty prescription: each category list holds exactly
      the doses of that category, in row order. */
  function Regroup(ds: seq<MedicineDosage>): (r: Prescription)
    ensures forall c :: Get(r, c) == OfCategory(ds, c)
    decreases |ds|
  {
    if |ds| == 0 then EmptyPrescription
    else AddDose(Regroup(ds[..|ds| - 1]), ds[|ds| - 1])
  }

  /** Regrouping places every dose in its own category and loses or adds
      none: the doses of the result are the rows, up to order. */
  lemma RegroupKeepsEveryDose(ds: seq<MedicineDosage>)
    ensures WellFormed(Regroup(ds))
    ensures multiset(AllDoses(Regroup(ds))) == multiset(ds)
    ensures |AllDoses(Regroup(ds))| == |ds|
  {
    var r := Regroup(ds);
    RegroupWellFormed(ds);
    forall x ensures multiset(AllDoses(r))[x] == multiset(ds)[x] {
      RegroupCount(ds, x);
    }
    assert multiset(AllDoses(r)) == multiset(ds);
    assert |AllDoses(r)| == |multiset(AllDoses(r))|;
  }

  lemma RegroupWellFormed(ds: seq<MedicineDosage>)
    ensures WellFormed(Regroup(ds))
  {
    var r := Regroup(ds);
    forall c: Category, i | 0 <= i < |Get(r, c)| ensures Get(r, c)[i].medicine.category == c {
      assert InCategory(c)(OfCategory(ds, c)[i]);
    }
  }

  lemma RegroupCount(ds: seq<MedicineDosage>, x: MedicineDosage)
    ensures multiset(AllDoses(Regroup(ds)))[x] == multiset(ds)[x]
  {
    CountByCategory(Regroup(ds), x);
    CategoryCount(ds, Oral, x);
    CategoryCount(ds, Injectable, x);
    CategoryCount(ds, Topic, x);
    CategoryCount(ds, TopicOftamologic, x);
    CategoryCount(ds, TopicOtologic, x);
    CategoryCount(ds, Nasal, x);
    CategoryCount(ds, Inhalational, x);
  }

  /** A dose occurs in the regrouped list of its own category as often as
      among the rows, and in no other list. */
  lemma CategoryCount(ds: seq<MedicineDosage>, c: Category, x: MedicineDosage)
    ensures multiset(Get(Regroup(ds), c))[x] == if x.medicine.category == c then multiset(ds)[x] else 0
  {
    FilterCounts(InCategory(c), ds);
  }

  /** How often a dose occurs in a prescription, summed over the seven
      lists. */
  lemma CountByCategory(p: Prescription, x: MedicineDosage)
    ensures multiset(AllDoses(p))[x]
      == multiset(Get(p, Oral))[x] + multiset(Get(p, Injectable))[x] + multiset(Get(p, Topic))[x]
       + multiset(Get(p, TopicOftamologic))[x] + multiset(Get(p, TopicOtologic))[x]
       + multiset(Get(p, Nasal))[x] + multiset(Get(p, Inhalational))[x]
  {
  }

  lemma OfCategoryConcat(a: seq<MedicineDosage>, b: seq<MedicineDosage>, c: Category)
    ensures OfCategory(a + b, c) == OfCategory(a, c) + OfCategory(b, c)
  {
    FilterConcat(InCategory(c), a, b);
  }

  /** In a well-formed prescription the doses of category `c` are its list
      of `c`, and no other list holds any. */
  lemma OfCategoryOfList(p: Prescription, d: Category, c: Category)
    requires WellFormed(p)
    ensures OfCategory(Get(p, d), c) == if d == c then Get(p, d) else []
  {
    if d == c {
      FilterKeepsAll(InCategory(c), Get(p, d));
    } else {
      FilterDropsAll(InCategory(c), Get(p, d));
    }
  }

  /** Regrouping the doses of a well-formed prescription, in the order they
      are saved, rebuilds it. */
  lemma RegroupAllDoses(p: Prescription)
    requires WellFormed(p)
    ensures Regroup(AllDoses(p)) == p
  {
    var r := Regroup(AllDoses(p));
    forall c ensures Get(r, c) == Get(p, c) {
      OfCategoryOfAllDoses(p, c);
    }
    Extensionality(r, p);
  }

  lemma OfCategoryOfAllDoses(p: Prescription, c: Category)
    requires WellFormed(p)
    ensures OfCategory(AllDoses(p), c) == Get(p, c)
  {
    var ls := PrescriptionDisplay.Values(p);
    PrescriptionDisplay.ValuesFlattenToAllDoses(p);
    CategoriesAreSeven();
    assert AllCategories[Position(c)] == c;
    OfCategoryOfLists(ls, AllCategories, c);
  }

  /** Lists whose doses are all of one category each, no two lists of the
      same category: the doses of category `c` among all of them are the
      list of `c`, or none if no list is of `c`. */
  lemma {:induction false} OfCategoryOfLists(ls: seq<seq<MedicineDosage>>, cats: seq<Category>, c: Category)
    requires |ls| == |cats|
    requires forall k, i :: 0 <= k < |ls| && 0 <= i < |ls[k]| ==> ls[k][i].medicine.category == cats[k]
    requires forall k, l :: 0 <= k < l < |cats| ==> cats[k] != cats[l]
    ensures forall k :: 0 <= k < |cats| && cats[k] == c ==> OfCategory(PrescriptionDisplay.Flat(ls), c) == ls[k]
    ensures (forall k :: 0 <= k < |cats| ==> cats[k] != c) ==> OfCategory(PrescriptionDisplay.Flat(ls), c) == []
    decreases |ls|
  {
    if |ls| > 0 {
      var rest := PrescriptionDisplay.Flat(ls[1..]);
      assert PrescriptionDisplay.Flat(ls) == ls[0] + rest;
      OfCategoryConcat(ls[0], rest, c);
      OfCategoryOfLists(ls[1..], cats[1..], c);
      if cats[0] == c {
        FilterKeepsAll(InCategory(c), ls[0]);
        forall k | 1 <= k < |cats| ensures cats[k] != c {
          assert cats[k] == cats[1..][k - 1];
        }
      } else {
        FilterDropsAll(InCategory(c), ls[0]);
        forall k | 0 <= k < |cats| && cats[k] == c
          ensures OfCategory(PrescriptionDisplay.Flat(ls), c) == ls[k]
        {
          assert cats[1..][k - 1] == c;
        }
      }
    }
  }

  /** The dose a stored row becomes once its medicine is joined in from the
      catalogue by id. */
  function Rejoin(rows: seq<PrescriptionDisplay.DoseRow>, catalog: map<int, Medicine>)
    : (ds: seq<MedicineDosage>)
    requires forall k :: 0 <= k < |rows| ==> rows[k].medicineId in catalog
    ensures |ds| == |rows|
    ensures forall k :: 0 <= k < |rows| ==>
      ds[k].medicine == catalog[rows[k].medicineId]
      && ds[k].customTitle == rows[k].customTitle
      && ds[k].customDescription == rows[k].customDescription
  {
    seq(|rows|, k requires 0 <= k < |rows| =>
      MedicineDosage(catalog[rows[k].medicineId], rows[k].customTitle, rows[k].customDescription))
  }

  /** One saved prescription as `loadSavedPrescriptions` builds it from its
      row, its dose rows and the joined medicines. */
  function LoadPrescription(id: int, name: string, rows: seq<PrescriptionDisplay.DoseRow>,
                            catalog: map<int, Medicine>): (s: SavedPrescription)
    requires forall k :: 0 <= k < |rows| ==> rows[k].medicineId in catalog
    ensures s.id == id && s.name == name
    ensures WellFormed(s.prescription)
    ensures |AllDoses(s.prescription)| == |rows|
  {
    var ds := Rejoin(rows, catalog);
    RegroupKeepsEveryDose(ds);
    SavedPrescription(id, Regroup(ds), name)
  }

  /** Saving a well-formed prescription and loading it back gives the same
      prescription, provided the catalogue still holds each of its medicines
      under its id and the dose rows come back in the order they were
      written. */
  lemma SaveLoadRoundTrip(p: Prescription, id: int, name: string, catalog: map<int, Medicine>)
    requires WellFormed(p)
    requires forall k :: 0 <= k < |AllDoses(p)| ==>
      AllDoses(p)[k].medicine.id in catalog && catalog[AllDoses(p)[k].medicine.id] == AllDoses(p)[k].medicine
    ensures var rows := PrescriptionDisplay.SavePrescription(p, Some(id)).value;
      (forall k :: 0 <= k < |rows| ==> rows[k].medicineId in catalog)
      && LoadPrescription(id, name, rows, catalog) == SavedPrescription(id, p, name)
  {
    var rows := PrescriptionDisplay.SavePrescription(p, Some(id)).value;
    var ds := Rejoin(rows, catalog);
    assert ds == AllDoses(p);
    RegroupAllDoses(p);
  }

  // ---------------------------------------------------------------------
  // The medicine search
  // ---------------------------------------------------------------------

  /** The lower-cased name contains the lower-cased query. */
  predicate MatchesQuery(m: Medicine, query: string) {
    Contains(ToLower(m.name), ToLower(query))
  }

  function QueryTest(query: string): Medicine -> bool {
    (m: Medicine) => MatchesQuery(m, query)
  }

  /** The medicines listed for a search: exactly those whose name matches,
      as many times as the catalogue lists them, in catalogue order. */
  function SearchMedicines(meds: seq<Medicine>, query: string): (r: seq<Medicine>)
    ensures forall m :: m in r <==> m in meds && MatchesQuery(m, query)
    ensures forall m :: multiset(r)[m] == if MatchesQuery(m, query) then multiset(meds)[m] else 0
  {
    FilterCounts(QueryTest(query), meds);
    Filter(QueryTest(query), meds)
  }

  /** The empty query lists the whole catalogue. */
  lemma EmptyQueryKeepsAll(meds: seq<Medicine>)
    ensures SearchMedicines(meds, "") == meds
  {
    forall k | 0 <= k < |meds| ensures QueryTest("")(meds[k]) {
      ContainsEmpty(ToLower(meds[k].name));
    }
    FilterKeepsAll(QueryTest(""), meds);
  }

  /** The search keeps catalogue order: the matches of a catalogue split in
      two are the matches of each part, one after the other. */
  lemma SearchKeepsOrder(a: seq<Medicine>, b: seq<Medicine>, query: string)
    ensures SearchMedicines(a + b, query) == SearchMedicines(a, query) + SearchMedicines(b, query)
  {
    FilterConcat(QueryTest(query), a, b);
  }

  /** The case of the query does not matter. */
  lemma SearchIgnoresCase(meds: seq<Medicine>, query: string)
    ensures SearchMedicines(meds, ToUpper(query)) == SearchMedicines(meds, query)
  {
    assert ToLower(ToUpper(query)) == ToLower(query);
    FilterCongruent(QueryTest(ToUpper(query)), QueryTest(query), meds);
  }
}
