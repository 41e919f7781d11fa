/** The records the prescription editor works on: medicines from the
    catalogue, the dose of a medicine inside a prescription, the prescription
    itself (one dose list per administration category), saved prescriptions
    and free-text treatment models. */
module Types {
  import opened Wrappers

  /** The seven administration categories, i.e. the keys of a prescription. */
  datatype Category =
    | Oral
    | Injectable
    | Topic
    | TopicOftamologic
    | TopicOtologic
    | Nasal
    | Inhalational

  /** The categories in the order the prescription record declares them; this
      is also the order in which its values are enumerated. */
  const AllCategories: seq<Category> :=
    [Oral, Injectable, Topic, TopicOftamologic, TopicOtologic, Nasal, Inhalational]

  /** Where a category stands in `AllCategories`. */
  function Position(c: Category): (k: nat)
    ensures k < |AllCategories| && AllCategories[k] == c
  {
    match c
    case Oral => 0
    case Injectable => 1
    case Topic => 2
    case TopicOftamologic => 3
    case TopicOtologic => 4
    case Nasal => 5
    case Inhalational => 6
  }

  /** The property name of a category in the prescription record. */
  function Key(c: Category): string {
    match c
    case Oral => "oral"
    case Injectable => "injectable"
    case Topic => "topic"
    case TopicOftamologic => "topicOftamologic"
    case TopicOtologic => "topicOtologic"
    case Nasal => "nasal"
    case Inhalational => "inhalational"
  }

  /** The category whose property name is `s`, if there is one. */
  function ParseCategory(s: string): (r: Option<Category>)
    ensures r.Some? ==> Key(r.value) == s
    ensures r.None? ==> forall c: Category :: Key(c) != s
  {
    if s == "oral" then Some(Oral)
    else if s == "injectable" then Some(Injectable)
    else if s == "topic" then Some(Topic)
    else if s == "topicOftamologic" then Some(TopicOftamologic)
    else if s == "topicOtologic" then Some(TopicOtologic)
    else if s == "nasal" then Some(Nasal)
    else if s == "inhalational" then Some(Inhalational)
    else None
  }

  /** There are exactly seven categories, each listed once, and the property
      names identify them. */
  lemma CategoriesAreSeven()
    ensures |AllCategories| == 7
    ensures forall c: Category :: c in AllCategories
    ensures forall i, j :: 0 <= i < j < |AllCategories| ==> AllCategories[i] != AllCategories[j]
    ensures forall c: Category :: ParseCategory(Key(c)) == Some(c)
    ensures forall c: Category :: |Key(c)| > 0
  {
    forall c: Category ensures c in AllCategories {
      assert AllCategories[Position(c)] == c;
    }
    forall c: Category ensures ParseCategory(Key(c)) == Some(c) {
      var r := ParseCategory(Key(c));
      assert r.Some? && Key(r.value) == Key(c);
      KeyInjective(r.value, c);
    }
  }

  lemma KeyInjective(c: Category, d: Category)
    requires Key(c) == Key(d)
    ensures c == d
  {
  }

  /** A catalogue medicine; `category` is the source's `type` field. */
  datatype Medicine = Medicine(
    id: int,
    name: string,
    category: Category,
    title: string,
    description: string)

  const EmptyMedicine: Medicine := Medicine(-1, "", Oral, "", "")

  /** A medicine as it appears in a prescription, with its own editable
      title and description. */
  datatype MedicineDosage = MedicineDosage(
    medicine: Medicine,
    customTitle: string,
    customDescription: string)

  datatype Prescription = Prescription(
    oral: seq<MedicineDosage>,
    injectable: seq<MedicineDosage>,
    topic: seq<MedicineDosage>,
    topicOftamologic: seq<MedicineDosage>,
    topicOtologic: seq<MedicineDosage>,
    nasal: seq<MedicineDosage>,
    inhalational: seq<MedicineDosage>)

  const EmptyPrescription: Prescription := Prescription([], [], [], [], [], [], [])

  /** `prescription[c]` */
  function Get(p: Prescription, c: Category): seq<MedicineDosage> {
    match c
    case Oral => p.oral
    case Injectable => p.injectable
    case Topic => p.topic
    case TopicOftamologic => p.topicOftamologic
    case TopicOtologic => p.topicOtologic
    case Nasal => p.nasal
    case Inhalational => p.inhalational
  }

  /** `{ ...prescription, [c]: list }`: the list of `c` is replaced and every
      other category keeps its list. */
  function Set(p: Prescription, c: Category, list: seq<MedicineDosage>): (r: Prescription)
    ensures Get(r, c) == list
    ensures forall d :: d != c ==> Get(r, d) == Get(p, d)
  {
    match c
    case Oral => p.(oral := list)
    case Injectable => p.(injectable := list)
    case Topic => p.(topic := list)
    case TopicOftamologic => p.(topicOftamologic := list)
    case TopicOtologic => p.(topicOtologic := list)
    case Nasal => p.(nasal := list)
    case Inhalational => p.(inhalational := list)
  }

  /** Two prescriptions are equal when their seven lists are. */
  lemma Extensionality(p: Prescription, q: Prescription)
    requires forall c :: Get(p, c) == Get(q, c)
    ensures p == q
  {
    assert Get(p, Oral) == Get(q, Oral);
    assert Get(p, Injectable) == Get(q, Injectable);
    assert Get(p, Topic) == Get(q, Topic);
    assert Get(p, TopicOftamologic) == Get(q, TopicOftamologic);
    assert Get(p, TopicOtologic) == Get(q, TopicOtologic);
    assert Get(p, Nasal) == Get(q, Nasal);
    assert Get(p, Inhalational) == Get(q, Inhalational);
  }

  /** Writing back the list a prescription already holds changes nothing. */
  lemma SetGet(p: Prescription, c: Category)
    ensures Set(p, c, Get(p, c)) == p
  {
    Extensionality(Set(p, c, Get(p, c)), p);
  }

  /** The doses of all categories, in category order (`Object.values`). */
  function AllDoses(p: Prescription): seq<MedicineDosage> {
    p.oral + p.injectable + p.topic + p.topicOftamologic + p.topicOtologic
      + p.nasal + p.inhalational
  }

  /** Every dose sits in the list of its own medicine's category. The editor
      only ever inserts a medicine into its own category's list. */
  predicate WellFormed(p: Prescription) {
    forall c: Category, i :: 0 <= i < |Get(p, c)| ==> Get(p, c)[i].medicine.category == c
  }

  lemma EmptyPrescriptionFacts()
    ensures forall c :: Get(EmptyPrescription, c) == []
    ensures AllDoses(EmptyPrescription) == []
    ensures WellFormed(EmptyPrescription)
  {
  }

  lemma EmptyMedicineFacts()
    ensures EmptyMedicine.id == -1
    ensures EmptyMedicine.name == "" && EmptyMedicine.title == "" && EmptyMedicine.description == ""
    ensures Key(EmptyMedicine.category) == "oral"
  {
  }

  /** A prescription saved under a name, as loaded back from storage. */
  datatype SavedPrescription = SavedPrescription(
    id: int,
    prescription: Prescription,
    name: string)

  /** A free-text treatment model. */
  datatype Model = Model(id: int, owner: string, content: string, name: string)

  const EmptyModel: Model := Model(-1, "", "", "")

  lemma EmptyModelFacts()
    ensures EmptyModel.id == -1
    ensures EmptyModel.owner == "" && EmptyModel.content == "" && EmptyModel.name == ""
  {
  }
}
