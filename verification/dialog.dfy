/**
 * `RestaurantDialog`: the add/edit form. Its state is the form data and the
 * per-field error texts; the handlers are pure transitions, and the API call
 * a submit makes is returned rather than performed.
 */
module RestaurantDialog {
  import opened Results
  import Text
  import opened ClientTypes

  /** The error text shown under each field. */
  datatype Errors = Errors(name: string, street: string, city: string, state: string, zip: string, contact: string)

  datatype State = State(form: Restaurant, errors: Errors)

  const FieldNames: set<string> := {"name", "street", "city", "state", "zip", "contact"}

  const NoErrors: Errors := Errors("", "", "", "", "", "")

  /** The error text under a field name. */
  function ErrorOf(e: Errors, name: string): string
    requires name in FieldNames
  {
    match name
    case "name" => e.name
    case "street" => e.street
    case "city" => e.city
    case "state" => e.state
    case "zip" => e.zip
    case "contact" => e.contact
  }

  /** No field shows an error. */
  predicate AllClear(e: Errors) {
    forall k | k in FieldNames :: ErrorOf(e, k) == ""
  }

  lemma AllClearFields(e: Errors)
    ensures AllClear(e) <==> e.name == "" && e.street == "" && e.city == "" && e.state == "" && e.zip == "" && e.contact == ""
  {
    assert ErrorOf(e, "name") == e.name && ErrorOf(e, "street") == e.street && ErrorOf(e, "city") == e.city;
    assert ErrorOf(e, "state") == e.state && ErrorOf(e, "zip") == e.zip && ErrorOf(e, "contact") == e.contact;
  }

  /** `{...prev, [name]: ""}`: clears the error under `name`. */
  function ClearError(e: Errors, name: string): (e': Errors)
    ensures forall k | k in FieldNames :: ErrorOf(e', k) == if k == name then "" else ErrorOf(e, k)
  {
    match name
    case "name" => e.(name := "")
    case "street" => e.(street := "")
    case "city" => e.(city := "")
    case "state" => e.(state := "")
    case "zip" => e.(zip := "")
    case "contact" => e.(contact := "")
    case _ => e
  }

  /** `{id: null, name: "", street: "", city: "", state: "", zip: "", contact: ""}`. */
  const EmptyForm: Restaurant := Restaurant(None, None, "", "", "", "", "", "", None, None)

  /** `initialForm`: a copy of the restaurant being edited, or the empty form. */
  function InitialForm(restaurant: Option<Restaurant>): (f: Restaurant)
    ensures restaurant.None? ==> f == EmptyForm && f.id.None?
    ensures restaurant.Some? ==> f == restaurant.value
  {
    match restaurant
    case Some(r) => r
    case None => EmptyForm
  }

  /** The effect run when `initialForm` or `open` changes: the form is reset
      to `initialForm` and every error cleared. */
  function Reset(restaurant: Option<Restaurant>): (st: State)
    ensures st.form == InitialForm(restaurant)
    ensures AllClear(st.errors)
  {
    State(InitialForm(restaurant), NoErrors)
  }

  /** The value of a text field by name. */
  function Field(f: Restaurant, name: string): string
    requires name in FieldNames
  {
    match name
    case "name" => f.name
    case "street" => f.street
    case "city" => f.city
    case "state" => f.state
    case "zip" => f.zip
    case "contact" => f.contact
  }

  function SetField(f: Restaurant, name: string, value: string): (f': Restaurant)
    requires name in FieldNames
    ensures Field(f', name) == value
    ensures forall k | k in FieldNames && k != name :: Field(f', k) == Field(f, k)
    ensures f'.id == f.id && f'.image == f.image && f'.createdAt == f.createdAt && f'.updatedAt == f.updatedAt
  {
    match name
    case "name" => f.(name := value)
    case "street" => f.(street := value)
    case "city" => f.(city := value)
    case "state" => f.(state := value)
    case "zip" => f.(zip := value)
    case "contact" => f.(contact := value)
  }

  /** The fields `handleChange` writes without looking at the value. */
  const FreeFields: set<string> := {"street", "city", "state", "zip", "name"}

  /** What the contact filter lets through: empty, or `/^\d+$/`. */
  predicate ContactAccepted(value: string) {
    value == "" || Text.MatchesDigits(value)
  }

  /** `handleChange` for an input named `name` now holding `value`: the error
      under that name is cleared; the free text fields take any value;
      `contact` takes only an empty or all-digit value; other names change no
      field. */
  function HandleChange(st: State, name: string, value: string): (st': State)
    ensures forall k | k in FieldNames :: ErrorOf(st'.errors, k) == if k == name then "" else ErrorOf(st.errors, k)
    ensures name in FreeFields ==> Field(st'.form, name) == value
    ensures name == "contact" && ContactAccepted(value) ==> st'.form.contact == value
    ensures forall k | k in FieldNames && k != name :: Field(st'.form, k) == Field(st.form, k)
    ensures st'.form.id == st.form.id && st'.form.image == st.form.image
    ensures st'.form.createdAt == st.form.createdAt && st'.form.updatedAt == st.form.updatedAt
    ensures (name !in FieldNames || (name == "contact" && !ContactAccepted(value))) ==> st'.form == st.form
  {
    var errors := ClearError(st.errors, name);
    if name in FreeFields then State(SetField(st.form, name, value), errors)
    else if name == "contact" && ContactAccepted(value) then State(SetField(st.form, name, value), errors)
    else State(st.form, errors)
  }

  /** Contact is empty or all digits, the property the filter maintains. */
  predicate ContactClean(f: Restaurant) {
    ContactAccepted(f.contact)
  }

  /** No sequence of edits can put a non-digit into a clean contact field. */
  lemma HandleChangeKeepsContactClean(st: State, name: string, value: string)
    requires ContactClean(st.form)
    ensures ContactClean(HandleChange(st, name, value).form)
  {
    if name != "contact" {
      assert Field(HandleChange(st, name, value).form, "contact") == Field(st.form, "contact");
    }
  }

  lemma EmptyFormContactClean()
    ensures ContactClean(EmptyForm)
  {
  }

  const NAME_REQUIRED: string := "Name is required."
  const STREET_REQUIRED: string := "Street is required."
  const CITY_REQUIRED: string := "City is required."
  const STATE_REQUIRED: string := "State is required."
  const ZIP_INVALID: string := "Enter a valid ZIP code."
  const CONTACT_LENGTH: string := "Enter 10 digits contact number."
  const CONTACT_DIGITS: string := "Contact must contain only numbers."

  /** The error text of a required field. */
  function RequiredError(value: string, message: string): string {
    if Text.Trim(value) == "" then message else ""
  }

  /** The ZIP check: blank after trimming, or not `/^\d{5,6}$/` on the raw text. */
  function ZipError(zip: string): string {
    if Text.Trim(zip) == "" || !Text.MatchesZip(zip) then ZIP_INVALID else ""
  }

  /** The contact check: the trimmed length in UTF-16 code units first, then
      `/^\d+$/` on the raw text. */
  function ContactError(contact: string): string {
    if Text.Utf16Length(Text.Trim(contact)) != 10 then CONTACT_LENGTH
    else if !Text.MatchesDigits(contact) then CONTACT_DIGITS
    else ""
  }

  /** A required field passes exactly when it holds a non-whitespace character. */
  lemma RequiredValidIff(value: string, message: string)
    requires message != ""
    ensures RequiredError(value, message) == "" <==> exists k | 0 <= k < |value| :: !Text.IsSpace(value[k])
  {
    Text.TrimEmptyIff(value);
  }

  /** A ZIP passes exactly when it is five or six ASCII digits with no
      surrounding whitespace. */
  lemma ZipValidIff(zip: string)
    ensures ZipError(zip) == "" <==> Text.MatchesZip(zip)
  {
    if Text.MatchesZip(zip) {
      Text.DigitsNotBlank(zip);
      ZipPasses(zip);
    }
  }

  lemma ZipPasses(zip: string)
    requires Text.Trim(zip) != "" && Text.MatchesZip(zip)
    ensures ZipError(zip) == ""
  {
  }

  /** A contact passes exactly when it is ten ASCII digits. */
  lemma ContactValidIff(contact: string)
    ensures ContactError(contact) == "" <==> |contact| == 10 && Text.AllDigits(contact)
  {
    if |contact| == 10 && Text.AllDigits(contact) {
      Text.DigitsNotBlank(contact);
      Text.DigitsUtf16Length(contact);
      ContactPasses(contact);
    }
    if ContactError(contact) == "" {
      ContactFails(contact);
    }
  }

  lemma ContactPasses(contact: string)
    requires Text.Utf16Length(Text.Trim(contact)) == 10 && Text.MatchesDigits(contact)
    ensures ContactError(contact) == ""
  {
  }

  /** A contact without an error is all digits and so its own trimmed text,
      ten code units and ten characters long. */
  lemma ContactFails(contact: string)
    requires ContactError(contact) == ""
    ensures |contact| == 10 && Text.AllDigits(contact)
  {
    assert Text.MatchesDigits(contact);
    Text.DigitsNotBlank(contact);
    Text.DigitsUtf16Length(contact);
  }

  /** Which contact message is shown: the length one exactly when the trimmed
      text is not 10 UTF-16 code units long; the digits one when the length
      fits but something other than digits is there. */
  lemma ContactMessages(contact: string)
    ensures ContactError(contact) == CONTACT_LENGTH <==> Text.Utf16Length(Text.Trim(contact)) != 10
    ensures ContactError(contact) == CONTACT_DIGITS <==> Text.Utf16Length(Text.Trim(contact)) == 10 && !Text.AllDigits(contact)
  {
  }

  /** A contact of five characters outside the Basic Multilingual Plane (five
      emoji, say) is ten code units long: it passes the length check and gets
      the digits message. */
  lemma {:induction false} AstralContact(contact: string)
    requires |contact| == 5
    requires Text.AllAstral(contact)
    ensures ContactError(contact) == CONTACT_DIGITS
  {
    Text.AstralNotBlank(contact);
    Text.AstralUtf16Length(contact);
    ContactDigitsMessage(contact);
  }

  lemma ContactDigitsMessage(contact: string)
    requires Text.Utf16Length(Text.Trim(contact)) == 10 && !Text.MatchesDigits(contact)
    ensures ContactError(contact) == CONTACT_DIGITS
  {
  }

  /** The form the dialog accepts, stated field by field. */
  predicate FormValid(f: Restaurant) {
    && (exists k | 0 <= k < |f.name| :: !Text.IsSpace(f.name[k]))
    && (exists k | 0 <= k < |f.street| :: !Text.IsSpace(f.street[k]))
    && (exists k | 0 <= k < |f.city| :: !Text.IsSpace(f.city[k]))
    && (exists k | 0 <= k < |f.state| :: !Text.IsSpace(f.state[k]))
    && Text.MatchesZip(f.zip)
    && |f.contact| == 10 && Text.AllDigits(f.contact)
  }

  /** `validateForm`: the new error texts for all six fields and whether the
      form is valid, which it is exactly when no error text is set. Each text
      is empty or the message of its check. */
  function ValidateForm(f: Restaurant): (v: (Errors, bool))
    ensures v.1 <==> AllClear(v.0)
    ensures v.0.name in {"", NAME_REQUIRED} && v.0.street in {"", STREET_REQUIRED}
    ensures v.0.city in {"", CITY_REQUIRED} && v.0.state in {"", STATE_REQUIRED}
    ensures v.0.zip in {"", ZIP_INVALID} && v.0.contact in {"", CONTACT_LENGTH, CONTACT_DIGITS}
    ensures v.0.name == RequiredError(f.name, NAME_REQUIRED) && v.0.street == RequiredError(f.street, STREET_REQUIRED)
    ensures v.0.city == RequiredError(f.city, CITY_REQUIRED) && v.0.state == RequiredError(f.state, STATE_REQUIRED)
    ensures v.0.zip == ZipError(f.zip) && v.0.contact == ContactError(f.contact)
  {
    var e := Errors(
      RequiredError(f.name, NAME_REQUIRED),
      RequiredError(f.street, STREET_REQUIRED),
      RequiredError(f.city, CITY_REQUIRED),
      RequiredError(f.state, STATE_REQUIRED),
      ZipError(f.zip),
      ContactError(f.contact));
    var valid := e.name == "" && e.street == "" && e.city == "" && e.state == "" && e.zip == "" && e.contact == "";
    AllClearFields(e);
    (e, valid)
  }

  /** The form is reported valid exactly when it meets `FormValid`. */
  lemma ValidateFormIff(f: Restaurant)
    ensures ValidateForm(f).1 <==> FormValid(f)
  {
    RequiredValidIff(f.name, NAME_REQUIRED);
    RequiredValidIff(f.street, STREET_REQUIRED);
    RequiredValidIff(f.city, CITY_REQUIRED);
    RequiredValidIff(f.state, STATE_REQUIRED);
    ZipValidIff(f.zip);
    ContactValidIff(f.contact);
  }

  /** The API request a submit issues. */
  datatype ApiCall = UpdateCall(id: int, data: Restaurant) | AddCall(data: Restaurant)

  datatype Submitted = Submitted(state: State, call: Option<ApiCall>, closed: bool)

  /** `handleSubmit`, with `apiOk` the outcome of the request: an invalid form
      only shows its errors; otherwise the request is an update when the form
      has a truthy id and a restaurant is being edited, an add otherwise; on
      success the form is emptied and the dialog saves and closes, on failure
      the form stays as it was. */
  function HandleSubmit(st: State, restaurant: Option<Restaurant>, apiOk: bool): (out: Submitted)
    ensures out.state.errors == ValidateForm(st.form).0
    ensures out.call.None? <==> !AllClear(out.state.errors)
    ensures out.call.Some? ==> (out.call.value.UpdateCall? <==> IdTruthy(st.form.id) && restaurant.Some?)
    ensures out.call.Some? ==> out.call.value.data == st.form
    ensures out.call.Some? && out.call.value.UpdateCall? ==> Some(out.call.value.id) == st.form.id
    ensures out.closed <==> out.call.Some? && apiOk
    ensures out.state.form == if out.closed then EmptyForm else st.form
  {
    var (errors, valid) := ValidateForm(st.form);
    if !valid then Submitted(State(st.form, errors), None, false)
    else
      var call := if IdTruthy(st.form.id) && restaurant.Some? then UpdateCall(st.form.id.value, st.form) else AddCall(st.form);
      if apiOk then Submitted(State(EmptyForm, errors), Some(call), true)
      else Submitted(State(st.form, errors), Some(call), false)
  }

  /** A submit issues a request exactly when the form meets `FormValid`. */
  lemma SubmitCallsIffValid(st: State, restaurant: Option<Restaurant>, apiOk: bool)
    ensures HandleSubmit(st, restaurant, apiOk).call.Some? <==> FormValid(st.form)
  {
    ValidateFormIff(st.form);
  }
}
