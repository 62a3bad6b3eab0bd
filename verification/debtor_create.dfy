/** `DebtorCreate` page: a three-step screen (1 form, 2 note, 3 success) whose
    submit only checks the name and the first phone. */
module DebtorCreate {
  import opened Base

  datatype CreateForm = CreateForm(
    step: int, name: string, phoneNumbers: seq<string>, address: string, notes: string)

  const InitialForm := CreateForm(1, "", [""], "", "")

  predicate ValidStep(f: CreateForm)
  {
    f.step in {1, 2, 3}
  }

  /** The warning toast `handleSubmit` shows. */
  datatype Warning = NoName | NoPhone

  /** `handleAddPhone`. */
  function AddPhone(f: CreateForm): (r: CreateForm)
    ensures r.(phoneNumbers := f.phoneNumbers) == f
    ensures |r.phoneNumbers| == |f.phoneNumbers| + 1
    ensures r.phoneNumbers[..|f.phoneNumbers|] == f.phoneNumbers && r.phoneNumbers[|f.phoneNumbers|] == ""
  {
    f.(phoneNumbers := f.phoneNumbers + [""])
  }

  /** `handlePhoneChange(index, value)` for an index of a shown phone field. */
  function PhoneChange(f: CreateForm, index: nat, value: string): (r: CreateForm)
    requires index < |f.phoneNumbers|
    ensures r.(phoneNumbers := f.phoneNumbers) == f
    ensures |r.phoneNumbers| == |f.phoneNumbers| && r.phoneNumbers[index] == value
    ensures forall i :: 0 <= i < |f.phoneNumbers| && i != index ==> r.phoneNumbers[i] == f.phoneNumbers[i]
  {
    f.(phoneNumbers := f.phoneNumbers[index := value])
  }

  /** `!phoneNumbers[0]`: a missing first entry is `undefined`, hence falsy. */
  predicate FirstPhoneMissing(phones: seq<string>)
  {
    |phones| == 0 || phones[0] == ""
  }

  /** `handleSubmit`: the new step and the warning shown, if any. */
  function Submit(f: CreateForm): (r: (CreateForm, Option<Warning>))
    ensures f.name == "" ==> r == (f, Some(NoName))
    ensures f.name != "" && FirstPhoneMissing(f.phoneNumbers) ==> r == (f, Some(NoPhone))
    ensures r.1.None? <==> f.name != "" && !FirstPhoneMissing(f.phoneNumbers)
    ensures r.1.None? ==> r.0 == f.(step := 3)
  {
    if f.name == "" then (f, Some(NoName))
    else if FirstPhoneMissing(f.phoneNumbers) then (f, Some(NoPhone))
    else (f.(step := 3), None)
  }

  /** Only the first phone is looked at: later entries may be anything. */
  lemma LaterPhonesUnchecked(f: CreateForm, more: seq<string>)
    requires f.name != "" && !FirstPhoneMissing(f.phoneNumbers)
    ensures Submit(f.(phoneNumbers := f.phoneNumbers + more)).1.None?
  {
    assert (f.phoneNumbers + more)[0] == f.phoneNumbers[0];
  }

  /** What the user can do; each control exists only on the steps that render it. */
  datatype CreateEvent =
    | NameTyped(value: string)       // step 1 (read-only on step 2)
    | AddressTyped(value: string)    // step 1
    | NotesTyped(value: string)      // step 2
    | PhoneTyped(index: nat, value: string)  // step 1, one field per phone
    | AddClicked                     // steps 1 and 2
    | NoteClicked                    // step 1
    | BackClicked                    // step 2
    | SubmitClicked                  // steps 1 and 2

  predicate Enabled(f: CreateForm, e: CreateEvent)
  {
    match e
    case NameTyped(_) => f.step == 1
    case AddressTyped(_) => f.step == 1
    case NotesTyped(_) => f.step == 2
    case PhoneTyped(index, _) => f.step == 1 && index < |f.phoneNumbers|
    case AddClicked => f.step == 1 || f.step == 2
    case NoteClicked => f.step == 1
    case BackClicked => f.step == 2
    case SubmitClicked => f.step == 1 || f.step == 2
  }

  /** One event; one whose control is not on screen changes nothing. Name,
      address and phones can be edited only on step 1; the note only on step 2. */
  function Step(f: CreateForm, e: CreateEvent): (r: CreateForm)
    ensures !Enabled(f, e) ==> r == f
    ensures r.name != f.name ==> f.step == 1 && e == NameTyped(r.name)
    ensures r.address != f.address ==> f.step == 1 && e == AddressTyped(r.address)
    ensures r.notes != f.notes ==> f.step == 2 && e == NotesTyped(r.notes)
    ensures |r.phoneNumbers| != |f.phoneNumbers| ==> e.AddClicked? && r.phoneNumbers == f.phoneNumbers + [""]
  {
    if !Enabled(f, e) then f
    else match e
      case NameTyped(v) => f.(name := v)
      case AddressTyped(v) => f.(address := v)
      case NotesTyped(v) => f.(notes := v)
      case PhoneTyped(index, v) => PhoneChange(f, index, v)
      case AddClicked => AddPhone(f)
      case NoteClicked => f.(step := 2)
      case BackClicked => f.(step := 1)
      case SubmitClicked => Submit(f).0
  }

  /** The step stays in {1, 2, 3}; step 3 is entered only by a submit that
      found a name and a first phone, and is never left. */
  lemma StepMachine(f: CreateForm, e: CreateEvent)
    requires ValidStep(f)
    ensures ValidStep(Step(f, e))
    ensures f.step != 3 && Step(f, e).step == 3 ==>
              e.SubmitClicked? && f.name != "" && !FirstPhoneMissing(f.phoneNumbers)
    ensures f.step == 3 ==> Step(f, e) == f
    ensures f.step == 1 && e.NoteClicked? ==> Step(f, e).step == 2
    ensures f.step == 2 && e.BackClicked? ==> Step(f, e).step == 1
  {
  }

  /** Past step 1 the name, the address and the existing phone entries are
      frozen: step 2 shows them read-only and step 3 has no inputs. */
  lemma FrozenAfterStep1(f: CreateForm, e: CreateEvent)
    requires f.step >= 2
    ensures Step(f, e).name == f.name && Step(f, e).address == f.address
    ensures Step(f, e).phoneNumbers[..|f.phoneNumbers|] == f.phoneNumbers
  {
  }

  function Run(f: CreateForm, es: seq<CreateEvent>): CreateForm
    decreases |es|
  {
    if es == [] then f else Run(Step(f, es[0]), es[1..])
  }

  /** From the blank form, any sequence of events keeps a valid step and at
      least one phone field. */
  lemma {:induction false} RunKeepsStepValid(f: CreateForm, es: seq<CreateEvent>)
    requires ValidStep(f) && |f.phoneNumbers| >= 1
    ensures ValidStep(Run(f, es)) && |Run(f, es).phoneNumbers| >= 1
    decreases |es|
  {
    if es != [] {
      StepMachine(f, es[0]);
      RunKeepsStepValid(Step(f, es[0]), es[1..]);
    }
  }

  lemma RunFromStart(es: seq<CreateEvent>)
    ensures ValidStep(Run(InitialForm, es)) && |Run(InitialForm, es).phoneNumbers| >= 1
  {
    RunKeepsStepValid(InitialForm, es);
  }
}
