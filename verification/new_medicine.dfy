/** The new-medicine form: every field but the id must be filled in, and the
    record sent to the medicine table is the form without its id. */
module NewMedicine {
  import opened Wrappers
  import Translate

  /** The form's record. `category` is the `type` field: the property name
      of the selected category. */
  datatype MedicineForm = MedicineForm(
    id: int,
    name: string,
    title: string,
    description: string,
    category: string)

  /** The form as the page opens: id 0, empty texts, category "oral". */
  const InitialForm: MedicineForm := MedicineForm(0, "", "", "", "oral")

  /** The value of one property: the id is a number, the rest are texts. */
  datatype FieldValue = Number(n: int) | Text(s: string)

  /** `Object.keys(newMedicine)` with their values, in the record's key
      order. */
  function Entries(f: MedicineForm): (es: seq<(string, FieldValue)>)
    ensures |es| == 5
  {
    [("id", Number(f.id)), ("name", Text(f.name)), ("title", Text(f.title)),
     ("description", Text(f.description)), ("type", Text(f.category))]
  }

  /** An entry that stops the submission: a text property other than the id
      with length 0. */
  predicate BlocksSubmission(e: (string, FieldValue)) {
    e.0 != "id" && e.1.Text? && |e.1.s| == 0
  }

  /** Every field that must be filled in is. */
  predicate Complete(f: MedicineForm) {
    |f.name| > 0 && |f.title| > 0 && |f.description| > 0 && |f.category| > 0
  }

  /** The validation loop of `addMedicine`: it walks the entries in order
      and stops at the first one that blocks the submission. */
  method FindEmptyField(es: seq<(string, FieldValue)>) returns (found: bool)
    ensures found <==> exists k :: 0 <= k < |es| && BlocksSubmission(es[k])
  {
    var i := 0;
    while i < |es|
      invariant 0 <= i <= |es|
      invariant forall k :: 0 <= k < i ==> !BlocksSubmission(es[k])
    {
      if BlocksSubmission(es[i]) {
        return true;
      }
      i := i + 1;
    }
    return false;
  }

  /** The loop finds an empty field exactly when the form is incomplete;
      the id never stops a submission. */
  lemma BlockedIffIncomplete(f: MedicineForm)
    ensures (exists k :: 0 <= k < 5 && BlocksSubmission(Entries(f)[k])) <==> !Complete(f)
    ensures !BlocksSubmission(Entries(f)[0])
  {
    var es := Entries(f);
    if !Complete(f) {
      if |f.name| == 0 {
        assert BlocksSubmission(es[1]);
      } else if |f.title| == 0 {
        assert BlocksSubmission(es[2]);
      } else if |f.description| == 0 {
        assert BlocksSubmission(es[3]);
      } else {
        assert BlocksSubmission(es[4]);
      }
    }
  }

  /** The record inserted into the medicine table: the form without its id,
      every other field as typed. */
  datatype MedicineRow = MedicineRow(
    name: string,
    title: string,
    description: string,
    category: string)

  function RowOf(f: MedicineForm): MedicineRow {
    MedicineRow(f.name, f.title, f.description, f.category)
  }

  /** The row does not depend on the id, and two forms that differ only in
      their id give the same row. */
  lemma RowIgnoresId(f: MedicineForm, g: MedicineForm)
    ensures RowOf(f) == RowOf(g) <==> f.(id := g.id) == g
  {
  }

  const FillAllFields := "Por favor, preencha todos os campos"
  const MedicineAdded := "Medicamento adicionado com sucesso"

  datatype AlertKind = Success | Failure

  datatype Alert = Alert(message: string, kind: AlertKind)

  /** What `addMedicine` does: the alert it shows, the row it sends to the
      table (if it gets that far), and whether the form is left in its
      loading state. */
  datatype AddOutcome = AddOutcome(alert: Alert, sent: Option<MedicineRow>, formLoading: bool)

  /** `addMedicine`. `insertError` is the backend's answer to the insert:
      `None` on success, or its error message. An incomplete form is turned
      away before anything is sent, and the loading flag set at the start
      is never cleared on that path. A complete form is sent without its id;
      a failure is reported in Portuguese. */
  method AddMedicine(f: MedicineForm, insertError: Option<string>) returns (outcome: AddOutcome)
    ensures outcome.sent.None? <==> !Complete(f)
    ensures !Complete(f) ==> outcome.alert == Alert(FillAllFields, Failure) && outcome.formLoading
    ensures Complete(f) ==> outcome.sent == Some(RowOf(f)) && !outcome.formLoading
    ensures Complete(f) && insertError.Some? ==>
      outcome.alert == Alert(Translate.Translate(insertError.value), Failure)
    ensures Complete(f) && insertError.None? ==> outcome.alert == Alert(MedicineAdded, Success)
  {
    var formLoading := true;
    var blocked := FindEmptyField(Entries(f));
    BlockedIffIncomplete(f);
    if blocked {
      return AddOutcome(Alert(FillAllFields, Failure), None, formLoading);
    }
    var row := RowOf(f);
    var alert := match insertError
      case Some(msg) => Alert(Translate.Translate(msg), Failure)
      case None => Alert(MedicineAdded, Success);
    formLoading := false;
    return AddOutcome(alert, Some(row), formLoading);
  }

  /** Submitting the form untouched is always turned away: its texts are
      empty. */
  lemma InitialFormIncomplete()
    ensures !Complete(InitialForm)
    ensures InitialForm.id == 0 && InitialForm.category == "oral"
    ensures InitialForm.name == "" && InitialForm.title == "" && InitialForm.description == ""
  {
  }
}
