/** The shared patient list of the frontend. Each operation is given what
    its service call answered (a value, or `None` when the call failed);
    on success the list takes the call's effect, on failure the list stays,
    `error` is set and the failure is passed on to the caller. */
module PatientContext {
  import opened Common

  datatype Patient = Patient(
    id: int,
    firstName: string,
    lastName: string,
    email: string,
    phone: string,
    dateOfBirth: string,
    address: Option<string>,
    emergencyContact: Option<string>,
    emergencyContactPhone: Option<string>,
    medicalHistory: Option<string>,
    createdAt: string)

  datatype ContextState = ContextState(patients: seq<Patient>, loading: bool, error: Option<string>)

  /** How a call ends for its caller: with a patient, with nothing, or by
      rethrowing the service's failure. */
  datatype Outcome = Returned(patient: Patient) | Finished | Rethrown

  datatype Reply = Reply(state: ContextState, outcome: Outcome)

  /** `loadPatients`: the list is replaced only when the fetch succeeds;
      loading is over afterwards either way. */
  function LoadPatients(st: ContextState, fetched: Option<seq<Patient>>): (r: ContextState)
    ensures !r.loading
    ensures fetched.Some? ==> r.patients == fetched.value && r.error.None?
    ensures fetched.None? ==> r.patients == st.patients && r.error == Some("Failed to load patients")
  {
    match fetched
    case Some(data) => ContextState(data, false, None)
    case None => ContextState(st.patients, false, Some("Failed to load patients"))
  }

  /** `addPatient`: the created patient goes at the end, behind every
      earlier entry in its order, and is returned. */
  function AddPatient(st: ContextState, created: Option<Patient>): (r: Reply)
    ensures created.Some? ==> && r.state.patients == st.patients + [created.value]
                              && r.state.error.None? && r.outcome == Returned(created.value)
    ensures created.None? ==> && r.state.patients == st.patients
                              && r.state.error == Some("Failed to add patient") && r.outcome == Rethrown
    ensures r.state.loading == st.loading
  {
    match created
    case Some(p) => Reply(st.(patients := st.patients + [p], error := None), Returned(p))
    case None => Reply(st.(error := Some("Failed to add patient")), Rethrown)
  }

  /** `prev.map(p => p.id === id ? updated : p)`. */
  function ReplaceById(ps: seq<Patient>, id: int, updated: Patient): (r: seq<Patient>)
    ensures |r| == |ps|
    ensures forall i :: 0 <= i < |ps| ==> r[i] == if ps[i].id == id then updated else ps[i]
  {
    seq(|ps|, i requires 0 <= i < |ps| => if ps[i].id == id then updated else ps[i])
  }

  /** `updatePatient`: exactly the entries with that id become the server's
      answer, which is returned; length, order and every other entry stay. */
  function UpdatePatient(st: ContextState, id: int, updated: Option<Patient>): (r: Reply)
    ensures updated.Some? ==> && r.state.patients == ReplaceById(st.patients, id, updated.value)
                              && r.state.error.None? && r.outcome == Returned(updated.value)
    ensures updated.None? ==> && r.state.patients == st.patients
                              && r.state.error == Some("Failed to update patient") && r.outcome == Rethrown
    ensures |r.state.patients| == |st.patients|
    ensures r.state == st.(patients := r.state.patients, error := r.state.error)
  {
    match updated
    case Some(p) => Reply(st.(patients := ReplaceById(st.patients, id, p), error := None), Returned(p))
    case None => Reply(st.(error := Some("Failed to update patient")), Rethrown)
  }

  function OtherId(id: int): Patient -> bool {
    (p: Patient) => p.id != id
  }

  /** `deletePatient`: every entry with that id goes, the rest keep their
      order. */
  function DeletePatient(st: ContextState, id: int, deleted: bool): (r: Reply)
    ensures deleted ==> && r.state.patients == Filter(st.patients, OtherId(id))
                        && r.state.error.None? && r.outcome == Finished
    ensures !deleted ==> && r.state.patients == st.patients
                         && r.state.error == Some("Failed to delete patient") && r.outcome == Rethrown
    ensures forall p :: p in r.state.patients ==> p in st.patients
    ensures deleted ==> forall p :: p in r.state.patients <==> p in st.patients && p.id != id
    ensures r.state == st.(patients := r.state.patients, error := r.state.error)
  {
    if deleted then Reply(st.(patients := Filter(st.patients, OtherId(id)), error := None), Finished)
    else Reply(st.(error := Some("Failed to delete patient")), Rethrown)
  }

  /** Deleting a just-added patient's id leaves what deleting it before the
      addition would have left; when the id was new that is the list before
      the addition. */
  lemma DeleteUndoesAdd(st: ContextState, p: Patient)
    ensures DeletePatient(AddPatient(st, Some(p)).state, p.id, true).state.patients
         == Filter(st.patients, OtherId(p.id))
    ensures (forall i :: 0 <= i < |st.patients| ==> st.patients[i].id != p.id) ==>
      DeletePatient(AddPatient(st, Some(p)).state, p.id, true).state.patients == st.patients
  {
    FilterConcat(st.patients, [p], OtherId(p.id));
    assert Filter([p], OtherId(p.id)) == [] + Filter([], OtherId(p.id));
    if forall i :: 0 <= i < |st.patients| ==> st.patients[i].id != p.id {
      FilterAll(st.patients, OtherId(p.id));
    }
  }

  /** An update is invisible once the same id is deleted, as long as the
      new record keeps the id. */
  lemma {:induction false} DeleteAfterUpdate(ps: seq<Patient>, id: int, updated: Patient)
    requires updated.id == id
    ensures Filter(ReplaceById(ps, id, updated), OtherId(id)) == Filter(ps, OtherId(id))
  {
    if ps != [] {
      assert ReplaceById(ps, id, updated)[1..] == ReplaceById(ps[1..], id, updated);
      DeleteAfterUpdate(ps[1..], id, updated);
    }
  }

  /** A failed call of any kind leaves the list exactly as it was. */
  lemma FailuresKeepList(st: ContextState, id: int)
    ensures AddPatient(st, None).state.patients == st.patients
    ensures UpdatePatient(st, id, None).state.patients == st.patients
    ensures DeletePatient(st, id, false).state.patients == st.patients
    ensures LoadPatients(st, None).patients == st.patients
  {
  }
}
