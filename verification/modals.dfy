/** The add and update forms of the dashboard: what `handleAddSubmit` and
    `handleUpdateSubmit` send for a given form, and how `openUpdateModal`
    fills the update form from a stored prospect. The DOM is reduced to the
    text of each control; the red highlights to the list of flagged fields;
    the network call to the body it would carry. */
module Modals {

  import opened Wrappers
  import opened Text
  import opened Values
  import opened Validation

  /** The controls in the order the handlers visit them. */
  const FormOrder: seq<Field> := [LastName, FirstName, Email, Phone, City, SectorWatchedId]

  /** The fields the handlers check: every field but `city`. */
  predicate IsChecked(f: Field) {
    f != City
  }

  /** The country code put in front of a stored phone number. */
  const PhonePrefix: string := "+33"

  /** A form (`UI.addFields` or `UI.updateFields`): the text of each
      control. */
  datatype Form = Form(entry: Field -> string)

  /** What a submit handler does: flag the listed fields and send nothing,
      send nothing because nothing was edited, or send a request body. */
  datatype Outcome = Blocked(flagged: seq<Field>) | NoChange | Send(body: Record)

  /** Every field is a control of the form. */
  lemma AllFieldsListed()
    ensures forall f: Field :: f in FormOrder
  {
    forall f: Field
      ensures f in FormOrder
    {
      match f
      case LastName => assert FormOrder[0] == f;
      case FirstName => assert FormOrder[1] == f;
      case Email => assert FormOrder[2] == f;
      case Phone => assert FormOrder[3] == f;
      case City => assert FormOrder[4] == f;
      case SectorWatchedId => assert FormOrder[5] == f;
    }
  }

  /** The fields a run of checks flags: each checked field that `fails`, in
      the order the handlers check them (`lastName`, `firstName`, `email`,
      `phone`, `sectorWatchedId`). */
  function Flags(fails: Field -> bool): seq<Field> {
    (if fails(LastName) then [LastName] else [])
    + (if fails(FirstName) then [FirstName] else [])
    + (if fails(Email) then [Email] else [])
    + (if fails(Phone) then [Phone] else [])
    + (if fails(SectorWatchedId) then [SectorWatchedId] else [])
  }

  /** `Flags` lists exactly the checked fields that fail. */
  lemma FlagsSpec(fails: Field -> bool)
    ensures forall f :: f in Flags(fails) <==> IsChecked(f) && fails(f)
  {
    var a := if fails(LastName) then [LastName] else [];
    var b := if fails(FirstName) then [FirstName] else [];
    var c := if fails(Email) then [Email] else [];
    var d := if fails(Phone) then [Phone] else [];
    var e := if fails(SectorWatchedId) then [SectorWatchedId] else [];
    assert Flags(fails) == a + b + c + d + e;
    forall f
      ensures f in a + b + c + d + e <==> IsChecked(f) && fails(f)
    {
      assert f in a + b + c + d + e <==> f in a || f in b || f in c || f in d || f in e;
    }
  }

  /** The check both handlers apply to the trimmed entry of a field: a
      required field must not be empty, the email and the phone must pass
      their format checks, and `city` is free. */
  predicate EntryOk(form: Form, f: Field) {
    match f
    case LastName => Trim(form.entry(LastName)) != []
    case FirstName => Trim(form.entry(FirstName)) != []
    case Email => ValidateEmail(Trim(form.entry(Email)))
    case Phone => ValidatePhone(Trim(form.entry(Phone)))
    case City => true
    case SectorWatchedId => Trim(form.entry(SectorWatchedId)) != []
  }

  /** `"+33" + entry.replace(/\s/g, '')`. */
  function FormatPhone(entry: string): string {
    PhonePrefix + StripSpaces(entry)
  }

  /** A phone number in the stored form: "+33", then nine ASCII digits of
      which the first is a 6 or a 7. */
  predicate IsStoredPhone(p: string) {
    && |p| == 12
    && StartsWith(p, PhonePrefix)
    && (p[3] == '6' || p[3] == '7')
    && AllDigits(p[3..])
  }

  /** A phone entry `validatePhone` accepts becomes a stored phone once
      formatted. */
  lemma ValidPhoneIsStored(entry: string)
    requires ValidatePhone(entry)
    ensures IsStoredPhone(FormatPhone(entry))
  {
    assert FormatPhone(entry)[3..] == StripSpaces(entry);
  }

  /** A stored phone holds no white space. */
  lemma StoredPhoneNoSpace(p: string)
    requires IsStoredPhone(p)
    ensures NoSpace(p)
  {
    forall k | 0 <= k < |p|
      ensures !IsSpace(p[k])
    {
      if k >= 3 {
        assert p[k] == p[3..][k - 3];
        assert IsDigit(p[k]);
      } else {
        assert p[k] == PhonePrefix[k];
      }
    }
  }

  /** A field the add handler flags: checked, and its trimmed entry fails. */
  predicate AddFlags(form: Form, f: Field) {
    IsChecked(f) && !EntryOk(form, f)
  }

  /** The value a handler sends for a field: the trimmed entry, and for the
      phone "+33" followed by the trimmed entry without its white space. */
  function SentValue(form: Form, f: Field): Value {
    if f == Phone then Str(FormatPhone(Trim(form.entry(Phone)))) else Str(Trim(form.entry(f)))
  }

  /** The request body of a successful add: every entry trimmed, the phone
      then replaced by its "+33" form. */
  function AddBody(form: Form): Record {
    map[Of(LastName) := SentValue(form, LastName),
        Of(FirstName) := SentValue(form, FirstName),
        Of(Email) := SentValue(form, Email),
        Of(Phone) := SentValue(form, Phone),
        Of(City) := SentValue(form, City),
        Of(SectorWatchedId) := SentValue(form, SectorWatchedId)]
  }

  /** A helper for `SubmitAdd`: the add body holds one property per field,
      with the value sent for it. */
  lemma AddBodyContents(form: Form)
    ensures forall k :: k in AddBody(form) <==> k.Of?
    ensures forall f: Field :: AddBody(form)[Of(f)] == SentValue(form, f)
  {
    var body := AddBody(form);
    forall k
      ensures k in body <==> k.Of?
    {
      if k.Of? {
        match k.field
        case LastName =>
        case FirstName =>
        case Email =>
        case Phone =>
        case City =>
        case SectorWatchedId =>
      }
    }
    forall f: Field
      ensures body[Of(f)] == SentValue(form, f)
    {
      match f
      case LastName =>
      case FirstName =>
      case Email =>
      case Phone =>
      case City =>
      case SectorWatchedId =>
    }
  }

  /** The fields the add handler flags, in the order it checks them. */
  function AddFlagged(form: Form): (r: seq<Field>)
    ensures forall f: Field :: f in r <==> AddFlags(form, f)
  {
    FlagsSpec(f => !EntryOk(form, f));
    Flags(f => !EntryOk(form, f))
  }

  /** A helper for `SubmitAdd`: with nothing flagged, the phone entry passes
      its check and is sent in its stored form. */
  lemma NothingFlaggedPhoneStored(form: Form)
    requires AddFlagged(form) == []
    ensures IsStoredPhone(FormatPhone(Trim(form.entry(Phone))))
  {
    assert !AddFlags(form, Phone);
    ValidPhoneIsStored(Trim(form.entry(Phone)));
  }

  /** `handleAddSubmit`: every failing check flagged, not just the first;
      when none fails, the trimmed entries are sent with the phone rewritten
      in its stored form. */
  function SubmitAdd(form: Form): (r: Outcome)
    ensures !r.NoChange?
    ensures r.Send? <==> forall f :: IsChecked(f) ==> EntryOk(form, f)
    ensures r.Blocked? ==> r.flagged != [] && forall f: Field :: f in r.flagged <==> AddFlags(form, f)
    ensures r.Send? ==> forall k :: k in r.body <==> k.Of?
    ensures r.Send? ==> forall f: Field :: f != Phone ==> r.body[Of(f)] == Str(Trim(form.entry(f)))
    ensures r.Send? ==> r.body[Of(Phone)] == Str(FormatPhone(Trim(form.entry(Phone))))
    ensures r.Send? ==> IsStoredPhone(r.body[Of(Phone)].text)
  {
    var flagged := AddFlagged(form);
    if flagged != [] then
      assert flagged[0] in flagged;
      Blocked(flagged)
    else
      AddSentFacts(form);
      Send(AddBody(form))
  }

  /** A helper for `SubmitAdd`: what the add body holds once nothing is
      flagged. */
  lemma AddSentFacts(form: Form)
    requires AddFlagged(form) == []
    ensures forall k :: k in AddBody(form) <==> k.Of?
    ensures forall f: Field :: f != Phone ==> AddBody(form)[Of(f)] == Str(Trim(form.entry(f)))
    ensures AddBody(form)[Of(Phone)] == Str(FormatPhone(Trim(form.entry(Phone))))
    ensures IsStoredPhone(AddBody(form)[Of(Phone)].text)
  {
    AddBodyContents(form);
    NothingFlaggedPhoneStored(form);
  }

  /** The phone control of `openUpdateModal`: the stored phone without its
      first "+33" when it starts with one, and empty otherwise. `None` when the
      stored phone is not a string, where `startsWith` throws. */
  function PhoneFieldOnOpen(stored: Option<Value>): (r: Option<string>)
    ensures r.Some? <==> stored.Some? && stored.value.Str?
    ensures r.Some? && StartsWith(stored.value.text, PhonePrefix) ==> PhonePrefix + r.value == stored.value.text
    ensures r.Some? && !StartsWith(stored.value.text, PhonePrefix) ==> r.value == ""
  {
    match stored
    case Some(Str(p)) =>
      if StartsWith(p, PhonePrefix) then
        PhoneReformatPreserves(p);
        Some(ReplaceFirst(p, PhonePrefix, ""))
      else
        Some("")
    case _ => None
  }

  /** `openUpdateModal`: each control shows `String(p[key] ?? "")`, and the
      phone control what `PhoneFieldOnOpen` derives. `None` when that throws. */
  function OpenForm(p: Record): (r: Option<Form>)
    ensures r.Some? <==> Of(Phone) in p && p[Of(Phone)].Str?
  {
    match PhoneFieldOnOpen(Get(p, Of(Phone)))
    case None => None
    case Some(phone) =>
      Some(Form(f => if f == Phone then phone else Display(Get(p, Of(f)))))
  }

  /** Whether `handleUpdateSubmit` sees a field as edited: a strict comparison
      with the stored phone, or with the stored value where a falsy one reads
      as "". A string never equals a stored number. */
  predicate Differs(form: Form, original: Record, f: Field) {
    if f == Phone then Some(SentValue(form, f)) != Get(original, Of(f))
    else SentValue(form, f) != OrEmpty(Get(original, Of(f)))
  }

  /** The state of the change-detection loop: the patch so far and the
      `hasChanges` flag. */
  datatype Changes = Changes(patch: Record, hasChanges: bool)

  /** The change-detection loop of `handleUpdateSubmit` over `fields`,
      starting from `acc`. What it computes is stated by
      `CollectChangesSpec`. */
  function CollectChanges(fields: seq<Field>, form: Form, original: Record, acc: Changes): Changes
    decreases |fields|
  {
    if fields == [] then
      acc
    else
      var f := fields[0];
      var next :=
        if Differs(form, original, f) then Changes(acc.patch[Of(f) := SentValue(form, f)], true)
        else acc;
      CollectChanges(fields[1..], form, original, next)
  }

  /** The change-detection loop adds every edited field to the patch with
      its new value and leaves every other property alone, and it raises the
      flag exactly when it added some field. */
  lemma {:induction false} CollectChangesSpec(fields: seq<Field>, form: Form, original: Record, acc: Changes)
    ensures var r := CollectChanges(fields, form, original, acc);
      && (forall k :: k in r.patch <==> k in acc.patch || (k.Of? && k.field in fields && Differs(form, original, k.field)))
      && (forall f :: f in fields && Differs(form, original, f) ==> Of(f) in r.patch && r.patch[Of(f)] == SentValue(form, f))
      && (forall k :: k in acc.patch && !(k.Of? && k.field in fields && Differs(form, original, k.field))
                      ==> k in r.patch && r.patch[k] == acc.patch[k])
      && (r.hasChanges <==> acc.hasChanges || exists f :: f in fields && Differs(form, original, f))
    decreases |fields|
  {
    if fields != [] {
      var f := fields[0];
      var next :=
        if Differs(form, original, f) then Changes(acc.patch[Of(f) := SentValue(form, f)], true)
        else acc;
      CollectChangesSpec(fields[1..], form, original, next);
      assert forall g :: g in fields <==> g == f || g in fields[1..];
    }
  }

  /** The patch `handleUpdateSubmit` builds: `{id: original.id}` plus every
      edited field. */
  function Diff(form: Form, original: Record): Changes
    requires Id in original
  {
    CollectChanges(FormOrder, form, original, Changes(map[Id := original[Id]], false))
  }

  /** The check `handleUpdateSubmit` makes on a field present in the patch:
      a falsy `lastName`, `firstName` or `sectorWatchedId`, an email
      `validateEmail` rejects, a phone that `validatePhone` rejects once its
      first "+33" is removed. */
  predicate PatchFieldFails(patch: Record, f: Field) {
    Of(f) in patch &&
    match f
    case LastName => !Truthy(Some(patch[Of(LastName)]))
    case FirstName => !Truthy(Some(patch[Of(FirstName)]))
    case Email => !ValidateEmail(Display(Some(patch[Of(Email)])))
    case Phone => !ValidatePhone(ReplaceFirst(Display(Some(patch[Of(Phone)])), PhonePrefix, ""))
    case City => false
    case SectorWatchedId => !Truthy(Some(patch[Of(SectorWatchedId)]))
  }

  /** `updatedData.phone = "+33" + updatedData.phone.replace("+33", "")`,
      done once the phone has passed its check. */
  function ReformatPhone(patch: Record): Record {
    if Of(Phone) in patch then
      patch[Of(Phone) := Str(PhonePrefix + ReplaceFirst(Display(Some(patch[Of(Phone)])), PhonePrefix, ""))]
    else
      patch
  }

  /** A field the update handler flags: checked, edited, and failing the same
      check the add form applies. */
  predicate UpdateFlags(form: Form, original: Record, f: Field) {
    IsChecked(f) && Differs(form, original, f) && !EntryOk(form, f)
  }

  /** The fields the update handler flags, in the order it checks them:
      those present in the patch whose value fails its check. */
  function UpdateFlagged(form: Form, original: Record): (r: seq<Field>)
    requires Id in original
    ensures forall f: Field :: f in r <==> UpdateFlags(form, original, f)
  {
    var patch := Diff(form, original).patch;
    PatchChecksAreEntryChecks(form, original);
    FlagsSpec(f => PatchFieldFails(patch, f));
    Flags(f => PatchFieldFails(patch, f))
  }

  /** `handleUpdateSubmit` for the prospect `original`: the patch holds `id`
      and exactly the edited fields; only those are checked; nothing is sent
      when one fails or when none was edited. */
  function SubmitUpdate(form: Form, original: Record): (r: Outcome)
    requires Id in original
    ensures r.NoChange? <==> forall f: Field :: !Differs(form, original, f)
    ensures r.Blocked? <==> exists f: Field :: UpdateFlags(form, original, f)
    ensures r.Blocked? ==> forall f: Field :: f in r.flagged <==> UpdateFlags(form, original, f)
    ensures r.Send? ==> Id in r.body && r.body[Id] == original[Id]
    ensures r.Send? ==> forall k :: k in r.body && k != Id ==> k.Of? && Differs(form, original, k.field)
    ensures r.Send? ==> forall f: Field :: Differs(form, original, f) ==> Of(f) in r.body && r.body[Of(f)] == SentValue(form, f)
  {
    var d := Diff(form, original);
    var flagged := UpdateFlagged(form, original);
    DiffFlag(form, original);
    if flagged != [] then
      assert flagged[0] in flagged;
      Blocked(flagged)
    else if d.hasChanges then
      SentBody(form, original);
      Send(ReformatPhone(d.patch))
    else
      NoChange
  }

  /** The patch holds `id`, with the prospect's own value, and exactly the
      edited fields. */
  lemma DiffKeys(form: Form, original: Record)
    requires Id in original
    ensures var patch := Diff(form, original).patch;
      && (forall k :: k in patch <==> k == Id || (k.Of? && Differs(form, original, k.field)))
      && patch[Id] == original[Id]
  {
    CollectChangesSpec(FormOrder, form, original, Changes(map[Id := original[Id]], false));
    AllFieldsListed();
  }

  /** Every edited field is in the patch with its new value. */
  lemma DiffValues(form: Form, original: Record)
    requires Id in original
    ensures var patch := Diff(form, original).patch;
      forall f: Field :: Differs(form, original, f) ==> Of(f) in patch && patch[Of(f)] == SentValue(form, f)
  {
    CollectChangesSpec(FormOrder, form, original, Changes(map[Id := original[Id]], false));
    AllFieldsListed();
  }

  /** `hasChanges` is raised exactly when some field was edited. */
  lemma DiffFlag(form: Form, original: Record)
    requires Id in original
    ensures Diff(form, original).hasChanges <==> exists f: Field :: Differs(form, original, f)
  {
    CollectChangesSpec(FormOrder, form, original, Changes(map[Id := original[Id]], false));
    AllFieldsListed();
  }

  /** A helper for `SubmitUpdate`: the body sent is the patch, which holds
      `id` and the new value of every edited field and nothing else. */
  lemma SentBody(form: Form, original: Record)
    requires Id in original
    ensures var body := ReformatPhone(Diff(form, original).patch);
      && Id in body && body[Id] == original[Id]
      && (forall k :: k in body && k != Id ==> k.Of? && Differs(form, original, k.field))
      && (forall f: Field :: Differs(form, original, f) ==> Of(f) in body && body[Of(f)] == SentValue(form, f))
  {
    var patch := Diff(form, original).patch;
    PatchPhoneIsFormatted(form, original);
    ReformatKeeps(patch);
    DiffKeys(form, original);
    DiffValues(form, original);
  }

  /** A helper for `UpdateFlagged`: the check made on the patch is the entry
      check on an edited field. */
  lemma PatchChecksAreEntryChecks(form: Form, original: Record)
    requires Id in original
    ensures forall f :: PatchFieldFails(Diff(form, original).patch, f) <==> UpdateFlags(form, original, f)
  {
    var patch := Diff(form, original).patch;
    DiffKeys(form, original);
    DiffValues(form, original);
    forall f
      ensures PatchFieldFails(patch, f) <==> UpdateFlags(form, original, f)
    {
      if Of(f) in patch {
        ValueCheckIsEntryCheck(form, patch, f);
      }
    }
  }

  /** A helper for `PatchChecksAreEntryChecks`: the check on the patch value
      of a field is the entry check. */
  lemma ValueCheckIsEntryCheck(form: Form, patch: Record, f: Field)
    requires Of(f) in patch && patch[Of(f)] == SentValue(form, f)
    ensures PatchFieldFails(patch, f) <==> !EntryOk(form, f)
  {
    if f == Phone {
      var t := Trim(form.entry(Phone));
      FormatPhoneParts(t);
      PhoneReformatPreserves(FormatPhone(t));
      StripSpacesIdempotent(t);
    }
  }

  /** "+33" then the entry without its white space. */
  lemma FormatPhoneParts(entry: string)
    ensures StartsWith(FormatPhone(entry), PhonePrefix)
    ensures FormatPhone(entry)[3..] == StripSpaces(entry)
  {
  }

  /** A phone in the patch is a string that starts with "+33". */
  predicate PhoneFormatted(patch: Record) {
    Of(Phone) in patch ==> patch[Of(Phone)].Str? && StartsWith(patch[Of(Phone)].text, PhonePrefix)
  }

  /** A helper for `SubmitUpdate`: the patch's phone, if any, is in its "+33"
      form. */
  lemma PatchPhoneIsFormatted(form: Form, original: Record)
    requires Id in original
    ensures PhoneFormatted(Diff(form, original).patch)
  {
    DiffKeys(form, original);
    DiffValues(form, original);
    FormatPhoneParts(Trim(form.entry(Phone)));
  }

  /** Reformatting a phone that already starts with "+33" leaves the patch
      as it is. */
  lemma ReformatKeeps(patch: Record)
    requires PhoneFormatted(patch)
    ensures ReformatPhone(patch) == patch
  {
    if Of(Phone) in patch {
      PhoneReformatPreserves(patch[Of(Phone)].text);
    }
  }

  /** The reformatting step is value-preserving: putting "+33" back in front
      of a phone that starts with "+33", once its first "+33" is removed,
      gives back the phone. */
  lemma PhoneReformatPreserves(p: string)
    requires StartsWith(p, PhonePrefix)
    ensures PhonePrefix + ReplaceFirst(p, PhonePrefix, "") == p
    ensures ReplaceFirst(p, PhonePrefix, "") == p[3..]
  {
    assert p[0..] == p;
    assert IsFirstOccurrence(p, PhonePrefix, 0);
  }

  /** A stored phone that starts with "+33" and holds no white space comes
      back unchanged: the update form shows it without "+33", and submitting
      that text re-prefixes it. */
  lemma PhoneRoundTrip(p: string)
    requires StartsWith(p, PhonePrefix) && NoSpace(p)
    ensures var shown := PhoneFieldOnOpen(Some(Str(p)));
      shown.Some? && FormatPhone(Trim(shown.value)) == p
  {
    var rest := p[3..];
    PhoneReformatPreserves(p);
    assert NoSpace(rest) by {
      forall k | 0 <= k < |rest|
        ensures !IsSpace(rest[k])
      {
        assert rest[k] == p[k + 3];
      }
    }
    TrimOfTrimmed(rest);
    StripSpacesOfNoSpace(rest);
    assert PhonePrefix + rest == p;
  }

  /** A stored value the update form shows as it is: missing, or a string
      with no white space at either end. */
  predicate ShownAsStored(v: Option<Value>) {
    v.None? || (v.value.Str? && IsTrimmed(v.value.text))
  }

  /** A stored phone the update form gives back unchanged. */
  predicate PhoneShownAsStored(v: Option<Value>) {
    v.Some? && v.value.Str? && StartsWith(v.value.text, PhonePrefix) && NoSpace(v.value.text)
  }

  /** A helper for `UneditedFormNoChange`: a field shown as stored is not
      edited when the form is submitted untouched. */
  lemma UneditedFieldUnchanged(p: Record, form: Form, f: Field)
    requires f != Phone && ShownAsStored(Get(p, Of(f)))
    requires form.entry(f) == Display(Get(p, Of(f)))
    ensures !Differs(form, p, f)
  {
    TrimOfTrimmed(form.entry(f));
  }

  /** Opening a prospect for update and submitting without touching the
      form sends nothing, when every stored field is shown as it is stored:
      the round trip of the form is the identity. */
  lemma UneditedFormNoChange(p: Record)
    requires Id in p
    requires PhoneShownAsStored(Get(p, Of(Phone)))
    requires forall f: Field :: f != Phone ==> ShownAsStored(Get(p, Of(f)))
    ensures OpenForm(p).Some? && SubmitUpdate(OpenForm(p).value, p) == NoChange
  {
    UneditedFieldsUnchanged(p);
  }

  /** A helper for `UneditedFormNoChange`: no field of the opened form is
      edited. */
  lemma UneditedFieldsUnchanged(p: Record)
    requires PhoneShownAsStored(Get(p, Of(Phone)))
    requires forall f: Field :: f != Phone ==> ShownAsStored(Get(p, Of(f)))
    ensures OpenForm(p).Some? && forall f: Field :: !Differs(OpenForm(p).value, p, f)
  {
    var form := OpenForm(p).value;
    forall f: Field
      ensures !Differs(form, p, f)
    {
      if f == Phone {
        PhoneRoundTrip(p[Of(Phone)].text);
      } else {
        UneditedFieldUnchanged(p, form, f);
      }
    }
  }

  /** A field stored as a number is always seen as edited once the form is
      opened on it: the form shows the number's digits, and the strict
      comparison of that string with the stored number fails. An update of a
      prospect whose `sectorWatchedId` is a number therefore always sends
      it, as a string. */
  lemma StoredNumberAlwaysSent(p: Record, f: Field)
    requires Id in p && f != Phone
    requires Of(f) in p && p[Of(f)].Num?
    requires OpenForm(p).Some?
    ensures var form := OpenForm(p).value;
      && Differs(form, p, f)
      && SubmitUpdate(form, p) != NoChange
      && (SubmitUpdate(form, p).Send? ==>
            SubmitUpdate(form, p).body[Of(f)] == Str(IntToDecimal(p[Of(f)].n)))
  {
    var form := OpenForm(p).value;
    var digits := IntToDecimal(p[Of(f)].n);
    assert form.entry(f) == digits;
    TrimOfTrimmed(digits);
  }

  /** An update whose phone entry is empty or white space is blocked with
      the phone flagged, unless the stored phone is exactly "+33": the
      entry becomes "+33", which differs from the stored phone, and the
      empty number behind it fails `validatePhone`. */
  lemma EmptyPhoneBlocks(form: Form, original: Record)
    requires Id in original
    requires Trim(form.entry(Phone)) == []
    requires Get(original, Of(Phone)) != Some(Str(PhonePrefix))
    ensures SubmitUpdate(form, original).Blocked?
    ensures Phone in SubmitUpdate(form, original).flagged
  {
    assert FormatPhone([]) == PhonePrefix;
    assert !ValidatePhone([]);
    assert UpdateFlags(form, original, Phone);
  }

  /** A prospect whose stored phone does not start with "+33" opens with an
      empty phone control, so submitting the form untouched is blocked on the
      phone. */
  lemma UnprefixedPhoneBlocks(p: Record)
    requires Id in p
    requires Of(Phone) in p && p[Of(Phone)].Str? && !StartsWith(p[Of(Phone)].text, PhonePrefix)
    ensures OpenForm(p).Some?
    ensures SubmitUpdate(OpenForm(p).value, p).Blocked?
    ensures Phone in SubmitUpdate(OpenForm(p).value, p).flagged
  {
    var form := OpenForm(p).value;
    assert form.entry(Phone) == [];
    TrimOfTrimmed([]);
    assert p[Of(Phone)].text != PhonePrefix;
    EmptyPhoneBlocks(form, p);
  }

  /** An untouched control of the opened form reads as unedited exactly when
      the update form shows the stored value as it is: a missing value or a
      string with no white space at either end, and for the phone a "+33"
      string with no white space. A stored number, or a string with white
      space at an end, always reads as edited. */
  lemma OpenFormUnedited(p: Record)
    ensures OpenForm(p).Some? ==>
      forall f: Field :: f != Phone ==> (!Differs(OpenForm(p).value, p, f) <==> ShownAsStored(Get(p, Of(f))))
    ensures OpenForm(p).Some? ==>
      (!Differs(OpenForm(p).value, p, Phone) <==> PhoneShownAsStored(Get(p, Of(Phone))))
  {
    if OpenForm(p).Some? {
      forall f: Field | f != Phone
        ensures !Differs(OpenForm(p).value, p, f) <==> ShownAsStored(Get(p, Of(f)))
      {
        OpenFieldUnedited(p, f);
      }
      OpenPhoneUnedited(p);
    }
  }

  /** A helper for `OpenFormUnedited`: a control other than the phone. */
  lemma OpenFieldUnedited(p: Record, f: Field)
    requires OpenForm(p).Some? && f != Phone
    ensures !Differs(OpenForm(p).value, p, f) <==> ShownAsStored(Get(p, Of(f)))
  {
    var v := Get(p, Of(f));
    assert OpenForm(p).value.entry(f) == Display(v);
    match v
    case None =>
      TrimOfTrimmed([]);
    case Some(Str(t)) =>
      TrimSpec(t);
      if IsTrimmed(t) {
        TrimOfTrimmed(t);
      }
    case Some(Num(n)) =>
      TrimOfTrimmed(IntToDecimal(n));
  }

  /** A helper for `OpenFormUnedited`: the phone control. */
  lemma OpenPhoneUnedited(p: Record)
    requires OpenForm(p).Some?
    ensures !Differs(OpenForm(p).value, p, Phone) <==> PhoneShownAsStored(Get(p, Of(Phone)))
  {
    var stored := p[Of(Phone)].text;
    var shown := OpenForm(p).value.entry(Phone);
    var sent := FormatPhone(Trim(shown));
    assert !Differs(OpenForm(p).value, p, Phone) <==> sent == stored;
    if !StartsWith(stored, PhonePrefix) {
      assert shown == [];
      TrimOfTrimmed([]);
      StripSpacesOfNoSpace([]);
      assert sent == PhonePrefix;
    } else if NoSpace(stored) {
      PhoneRoundTrip(stored);
    } else {
      StripSpacesNoSpace(Trim(shown));
      FormattedPhoneNoSpace(StripSpaces(Trim(shown)));
    }
  }

  /** "+33" in front of a string with no white space leaves none. */
  lemma FormattedPhoneNoSpace(digits: string)
    requires NoSpace(digits)
    ensures NoSpace(PhonePrefix + digits)
  {
    var p := PhonePrefix + digits;
    forall k | 0 <= k < |p|
      ensures !IsSpace(p[k])
    {
      if k < 3 {
        assert p[k] == PhonePrefix[k];
      } else {
        assert p[k] == digits[k - 3];
      }
    }
  }

  /** What happens to a prospect the add form creates: the server stores its
      `sectorWatchedId` as the number `parseInt` makes of the text sent, so
      the stored prospect always reads as edited, and an untouched update of
      it never sends nothing. */
  lemma CreatedProspectLooksEdited(form: Form, id: Value, n: int)
    ensures SubmitAdd(form).Send? ==>
      var stored := SubmitAdd(form).body[Id := id][Of(SectorWatchedId) := Num(n)];
      && OpenForm(stored).Some?
      && Differs(OpenForm(stored).value, stored, SectorWatchedId)
      && SubmitUpdate(OpenForm(stored).value, stored) != NoChange
  {
    if SubmitAdd(form).Send? {
      var stored := SubmitAdd(form).body[Id := id][Of(SectorWatchedId) := Num(n)];
      assert Get(stored, Of(Phone)) == Get(SubmitAdd(form).body, Of(Phone));
      StoredNumberAlwaysSent(stored, SectorWatchedId);
    }
  }

  /** A prospect stored exactly as the add form sent it, with an id, reopens
      in the update form unchanged: submitting that form untouched sends
      nothing. The server does not store it so (`CreatedProspectLooksEdited`). */
  lemma AddedProspectReopensUnchanged(form: Form, id: Value)
    ensures SubmitAdd(form).Send? ==>
      var stored := SubmitAdd(form).body[Id := id];
      && OpenForm(stored).Some?
      && SubmitUpdate(OpenForm(stored).value, stored) == NoChange
  {
    if SubmitAdd(form).Send? {
      SubmitAddSendsAddBody(form);
      AddedFieldsShown(form, id);
      AddedPhoneShown(form, id);
      UneditedFormNoChange(AddBody(form)[Id := id]);
    }
  }

  /** A helper for `AddedProspectReopensUnchanged`: what the add handler
      sends is `AddBody`, with a phone in its stored form. */
  lemma SubmitAddSendsAddBody(form: Form)
    ensures SubmitAdd(form).Send? ==>
      && SubmitAdd(form).body == AddBody(form)
      && IsStoredPhone(FormatPhone(Trim(form.entry(Phone))))
  {
    if SubmitAdd(form).Send? {
      assert AddFlagged(form) == [];
      assert SubmitAdd(form) == Send(AddBody(form));
    }
  }

  /** A helper for `AddedProspectReopensUnchanged`: the fields other than the
      phone are stored trimmed. */
  lemma AddedFieldsShown(form: Form, id: Value)
    ensures forall f: Field :: f != Phone ==> ShownAsStored(Get(AddBody(form)[Id := id], Of(f)))
  {
    var stored := AddBody(form)[Id := id];
    AddBodyContents(form);
    forall f: Field | f != Phone
      ensures ShownAsStored(Get(stored, Of(f)))
    {
      assert Get(stored, Of(f)) == Some(Str(Trim(form.entry(f))));
      TrimSpec(form.entry(f));
    }
  }

  /** A helper for `AddedProspectReopensUnchanged`: the phone is stored in
      a form the update form gives back. */
  lemma AddedPhoneShown(form: Form, id: Value)
    requires IsStoredPhone(FormatPhone(Trim(form.entry(Phone))))
    ensures PhoneShownAsStored(Get(AddBody(form)[Id := id], Of(Phone)))
  {
    var phone := FormatPhone(Trim(form.entry(Phone)));
    assert Get(AddBody(form)[Id := id], Of(Phone)) == Some(Str(phone));
    StoredPhoneNoSpace(phone);
  }
}
