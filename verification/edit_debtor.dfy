/** `EditDebtor` page: the debtor form, its phone list (never empty), the
    `+998XXXXXXXXX` check and the payload sent on submit. */
module EditDebtor {
  import opened Base
  import opened Text

  datatype DebtorForm = DebtorForm(
    fullName: string, address: string, description: string, store: string,
    phoneNumbers: seq<string>)

  /** The form before the debtor has loaded. */
  const InitialForm := DebtorForm("", "", "", "", [""])

  /** The regular expression `^\+998[0-9]{9}$`. */
  predicate ValidPhone(p: string)
  {
    |p| == 13 && StartsWith(p, "+998") && AllDigits(p[4..])
  }

  /** A phone that passes the check has no white space, so `trim` keeps it. */
  lemma ValidPhoneIsNotBlank(p: string)
    requires ValidPhone(p)
    ensures Trim(p) == p && p != "" && NonBlank(p)
  {
    forall i | 0 <= i < |p| ensures !IsWhitespace(p[i]) {
      if i >= 4 { assert p[4..][i - 4] == p[i]; }
    }
    assert NonBlank(p) by {
      assert !IsWhitespace(p[0]);
    }
    TrimNoWhitespace(p);
  }

  /** The test of the payload filter, `phone.trim() !== ""`, stated as "some
      character is not white space"; `NonBlankIsTrimTest` shows the two agree. */
  predicate NonBlank(p: string)
  {
    !AllWhitespace(p)
  }

  lemma NonBlankIsTrimTest(p: string)
    ensures NonBlank(p) <==> Trim(p) != ""
  {
    TrimEmptyIff(p);
  }

  /** `phone_numbers.filter(phone => phone.trim() !== "")`. */
  function KeepNonBlank(phones: seq<string>): (r: seq<string>)
    ensures IsSubsequence(r, phones)
    ensures forall i :: 0 <= i < |r| ==> NonBlank(r[i])
    ensures forall i :: 0 <= i < |phones| && NonBlank(phones[i]) ==> phones[i] in r
  {
    if phones == [] then []
    else
      var rest := KeepNonBlank(phones[1..]);
      assert phones == [phones[0]] + phones[1..];
      SubsequenceCons(phones[0], rest, phones[1..]);
      assert forall i :: 0 < i < |phones| ==> phones[i] == phones[1..][i - 1];
      if NonBlank(phones[0]) then
        var r := [phones[0]] + rest;
        assert r[1..] == rest;
        r
      else rest
  }

  /** Each non-blank phone is kept as often as it occurs, so duplicates survive. */
  lemma {:induction false} KeepNonBlankCounts(phones: seq<string>)
    ensures forall p :: multiset(KeepNonBlank(phones))[p] == (if NonBlank(p) then multiset(phones)[p] else 0)
  {
    if phones != [] {
      var rest := phones[1..];
      KeepNonBlankCounts(rest);
      assert phones == [phones[0]] + rest;
      if NonBlank(phones[0]) {
        assert KeepNonBlank(phones) == [phones[0]] + KeepNonBlank(rest);
      } else {
        assert KeepNonBlank(phones) == KeepNonBlank(rest);
      }
    }
  }

  /** The filter drops nothing from a list with no blank entry. */
  lemma {:induction false} KeepNonBlankOfNonBlank(phones: seq<string>)
    requires forall i :: 0 <= i < |phones| ==> NonBlank(phones[i])
    ensures KeepNonBlank(phones) == phones
  {
    if phones != [] {
      var rest := phones[1..];
      forall i | 0 <= i < |rest|
        ensures NonBlank(rest[i])
      {
        assert rest[i] == phones[i + 1];
      }
      KeepNonBlankOfNonBlank(rest);
      assert NonBlank(phones[0]);
      assert KeepNonBlank(phones) == [phones[0]] + KeepNonBlank(rest);
      assert phones == [phones[0]] + rest;
    }
  }

  datatype SubmitResult = Rejected | Send(payload: DebtorForm)

  /** `handleSubmit`: refuses the form when any phone fails the check (an
      empty one included); otherwise sends the form with blank phones
      dropped, which drops nothing. */
  function Submit(form: DebtorForm): (r: SubmitResult)
    ensures r.Send? <==> forall i :: 0 <= i < |form.phoneNumbers| ==> ValidPhone(form.phoneNumbers[i])
    ensures r.Send? ==> r.payload == form
  {
    if forall i :: 0 <= i < |form.phoneNumbers| ==> ValidPhone(form.phoneNumbers[i]) then
      forall i | 0 <= i < |form.phoneNumbers| ensures NonBlank(form.phoneNumbers[i]) {
        ValidPhoneIsNotBlank(form.phoneNumbers[i]);
      }
      KeepNonBlankOfNonBlank(form.phoneNumbers);
      Send(form.(phoneNumbers := KeepNonBlank(form.phoneNumbers)))
    else Rejected
  }

  /** The untouched form is never sent: its only phone is empty. */
  lemma InitialFormIsRejected()
    ensures Submit(InitialForm) == Rejected
  {
    assert !ValidPhone(InitialForm.phoneNumbers[0]);
  }

  /** The server's copy of the debtor, or `None` when the request failed. */
  function Load(form: DebtorForm, fetched: Option<DebtorForm>): (r: DebtorForm)
    ensures fetched.None? ==> r == form
    ensures fetched.Some? ==> r.(phoneNumbers := fetched.value.phoneNumbers) == fetched.value
    ensures fetched.Some? && fetched.value.phoneNumbers != [] ==> r.phoneNumbers == fetched.value.phoneNumbers
    ensures fetched.Some? && fetched.value.phoneNumbers == [] ==> r.phoneNumbers == [""]
    ensures fetched.Some? || |form.phoneNumbers| >= 1 ==> |r.phoneNumbers| >= 1
  {
    match fetched
    case None => form
    case Some(d) =>
      d.(phoneNumbers := if |d.phoneNumbers| > 0 then d.phoneNumbers else [""])
  }

  datatype Field = FullName | Address | Description | Store

  function FieldValue(form: DebtorForm, field: Field): string
  {
    match field
    case FullName => form.fullName
    case Address => form.address
    case Description => form.description
    case Store => form.store
  }

  /** `handleInputChange(field, value)`. */
  function InputChange(form: DebtorForm, field: Field, value: string): (r: DebtorForm)
    ensures FieldValue(r, field) == value
    ensures forall other :: other != field ==> FieldValue(r, other) == FieldValue(form, other)
    ensures r.phoneNumbers == form.phoneNumbers
  {
    match field
    case FullName => form.(fullName := value)
    case Address => form.(address := value)
    case Description => form.(description := value)
    case Store => form.(store := value)
  }

  /** `phone_numbers.map((phone, i) => i === index ? value : phone)`. */
  function ReplaceAt(phones: seq<string>, index: int, value: string): (r: seq<string>)
    ensures |r| == |phones|
    ensures 0 <= index < |phones| ==> r[index] == value
    ensures forall i :: 0 <= i < |phones| && i != index ==> r[i] == phones[i]
  {
    if phones == [] then []
    else
      var rest := ReplaceAt(phones[1..], index - 1, value);
      [if index == 0 then value else phones[0]] + rest
  }

  /** `handlePhoneChange(index, value)`: an index outside the list changes nothing. */
  function PhoneChange(form: DebtorForm, index: int, value: string): (r: DebtorForm)
    ensures r.(phoneNumbers := form.phoneNumbers) == form
    ensures |r.phoneNumbers| == |form.phoneNumbers|
    ensures 0 <= index < |form.phoneNumbers| ==> r.phoneNumbers[index] == value
    ensures forall i :: 0 <= i < |form.phoneNumbers| && i != index ==> r.phoneNumbers[i] == form.phoneNumbers[i]
  {
    form.(phoneNumbers := ReplaceAt(form.phoneNumbers, index, value))
  }

  /** `addPhoneNumber`. */
  function AddPhone(form: DebtorForm): (r: DebtorForm)
    ensures r.(phoneNumbers := form.phoneNumbers) == form
    ensures |r.phoneNumbers| == |form.phoneNumbers| + 1
    ensures r.phoneNumbers[..|form.phoneNumbers|] == form.phoneNumbers
    ensures r.phoneNumbers[|form.phoneNumbers|] == ""
  {
    form.(phoneNumbers := form.phoneNumbers + [""])
  }

  /** `filter((_, i) => i !== index)`. */
  function DropAt<T>(xs: seq<T>, index: int): (r: seq<T>)
    ensures 0 <= index < |xs| ==> r == xs[..index] + xs[index + 1..]
    ensures !(0 <= index < |xs|) ==> r == xs
  {
    if xs == [] then []
    else
      var rest := DropAt(xs[1..], index - 1);
      assert xs == [xs[0]] + xs[1..];
      (if index == 0 then [] else [xs[0]]) + rest
  }

  /** `removePhoneNumber(index)`: only acts while more than one phone is listed. */
  function RemovePhone(form: DebtorForm, index: int): (r: DebtorForm)
    ensures r.(phoneNumbers := form.phoneNumbers) == form
    ensures |form.phoneNumbers| > 1 && 0 <= index < |form.phoneNumbers| ==>
              r.phoneNumbers == form.phoneNumbers[..index] + form.phoneNumbers[index + 1..]
    ensures |form.phoneNumbers| <= 1 || !(0 <= index < |form.phoneNumbers|) ==> r == form
    ensures |r.phoneNumbers| >= 1 <==> |form.phoneNumbers| >= 1
  {
    if |form.phoneNumbers| > 1 then form.(phoneNumbers := DropAt(form.phoneNumbers, index)) else form
  }

  /** Adding a phone and removing the new last entry gives back the form. */
  lemma RemoveUndoesAdd(form: DebtorForm)
    requires |form.phoneNumbers| >= 1
    ensures RemovePhone(AddPhone(form), |form.phoneNumbers|) == form
  {
    var added := AddPhone(form).phoneNumbers;
    if |added| > 1 {
      assert added[..|form.phoneNumbers|] + added[|form.phoneNumbers| + 1..] == form.phoneNumbers;
    }
  }

  datatype FormEvent =
    | Loaded(fetched: Option<DebtorForm>)
    | Typed(field: Field, value: string)
    | PhoneTyped(index: int, value: string)
    | AddClicked
    | RemoveClicked(index: int)

  function Step(form: DebtorForm, e: FormEvent): DebtorForm
  {
    match e
    case Loaded(fetched) => Load(form, fetched)
    case Typed(field, value) => InputChange(form, field, value)
    case PhoneTyped(index, value) => PhoneChange(form, index, value)
    case AddClicked => AddPhone(form)
    case RemoveClicked(index) => RemovePhone(form, index)
  }

  function Run(form: DebtorForm, es: seq<FormEvent>): DebtorForm
    decreases |es|
  {
    if es == [] then form else Run(Step(form, es[0]), es[1..])
  }

  /** However the page is used, at least one phone field is shown. */
  lemma {:induction false} PhoneListNeverEmpty(form: DebtorForm, es: seq<FormEvent>)
    requires |form.phoneNumbers| >= 1
    ensures |Run(form, es).phoneNumbers| >= 1
    decreases |es|
  {
    if es != [] {
      PhoneListNeverEmpty(Step(form, es[0]), es[1..]);
    }
  }

  lemma PhoneListNeverEmptyFromStart(es: seq<FormEvent>)
    ensures |Run(InitialForm, es).phoneNumbers| >= 1
  {
    PhoneListNeverEmpty(InitialForm, es);
  }
}
