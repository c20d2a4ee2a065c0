/** The tracking page (`src/pages/TrackGrievance.tsx`): form validation before
    a search, the demo lookup that stands in for the server, and the clearing
    of a field's error when that field is edited. The page state is reduced to
    the two inputs, the shown record and the error map; the delay, the spinner
    and the toasts are not modelled. */
module TrackGrievancePage {
  import opened Wrappers
  import opened Text
  import opened TrackingIds
  import R = GrievanceRecords

  /** The two inputs of the form; they are also the keys of the error map. */
  datatype Field = GrievanceIdField | PhoneField

  const IdRequired := "Grievance ID is required"
  const IdInvalid := "Invalid Grievance ID format (e.g., GR123456)"
  const PhoneRequired := "Phone number is required"
  const PhoneInvalid := "Phone number must be 10 digits"

  /** `/^\d{10}$/.test(s)` */
  predicate IsPhoneFormat(s: string) {
    |s| == 10 && IsDigits(s)
  }

  predicate IsBlank(s: string) {
    forall k :: 0 <= k < |s| ==> IsWhitespace(s[k])
  }

  /** The error, if any, for one input: "required" when the trimmed value is
      empty, else a format error when the untrimmed value fails the pattern. */
  function FieldError(value: string, wellFormed: bool, required: string, invalid: string): (e: Option<string>)
    ensures e == Some(required) <==> IsBlank(value)
    ensures e == Some(invalid) <==> !IsBlank(value) && !wellFormed
    ensures e.None? <==> !IsBlank(value) && wellFormed
    requires required != invalid
  {
    TrimEmptyIffBlank(value);
    if Trim(value) == [] then Some(required)
    else if !wellFormed then Some(invalid)
    else None
  }

  /** The `errors` object `searchGrievance` builds. */
  function Validate(grievanceId: string, phone: string): (errors: map<Field, string>)
    ensures GrievanceIdField in errors <==> IsBlank(grievanceId) || !IsTrackingIdFormat(grievanceId)
    ensures GrievanceIdField in errors ==>
      errors[GrievanceIdField] == (if IsBlank(grievanceId) then IdRequired else IdInvalid)
    ensures PhoneField in errors <==> IsBlank(phone) || !IsPhoneFormat(phone)
    ensures PhoneField in errors ==>
      errors[PhoneField] == (if IsBlank(phone) then PhoneRequired else PhoneInvalid)
  {
    var idError := FieldError(grievanceId, IsTrackingIdFormat(grievanceId), IdRequired, IdInvalid);
    var phoneError := FieldError(phone, IsPhoneFormat(phone), PhoneRequired, PhoneInvalid);
    var withId: map<Field, string> := if idError.Some? then map[GrievanceIdField := idError.value] else map[];
    if phoneError.Some? then withId[PhoneField := phoneError.value] else withId
  }

  /** A well-formed identifier is never blank, so only the format matters. */
  lemma ValidIdIsNotBlank(s: string)
    requires IsTrackingIdFormat(s)
    ensures !IsBlank(s)
  {
    assert !IsWhitespace(s[0]);
  }

  /** The pattern sees the untrimmed value: surrounding spaces make a good identifier
      invalid rather than required. */
  lemma PaddedIdRejected(phone: string)
    ensures GrievanceIdField in Validate(" GR123456", phone)
    ensures Validate(" GR123456", phone)[GrievanceIdField] == IdInvalid
  {
    assert !IsBlank(" GR123456") by { assert !IsWhitespace(" GR123456"[1]); }
  }

  lemma DemoIdWellFormed()
    ensures IsTrackingIdFormat("GR123456") && IsTrackingIdFormat("GR654321")
  {
    assert "GR123456"[2..] == "123456";
    assert "GR654321"[2..] == "654321";
  }

  /** The two inputs are checked independently: each error depends only on its
      own field, so both can be reported at once. */
  lemma ErrorsIndependent(id1: string, id2: string, phone1: string, phone2: string)
    ensures (GrievanceIdField in Validate(id1, phone1)) == (GrievanceIdField in Validate(id1, phone2))
    ensures GrievanceIdField in Validate(id1, phone1) ==>
      Validate(id1, phone1)[GrievanceIdField] == Validate(id1, phone2)[GrievanceIdField]
    ensures (PhoneField in Validate(id1, phone1)) == (PhoneField in Validate(id2, phone1))
    ensures PhoneField in Validate(id1, phone1) ==>
      Validate(id1, phone1)[PhoneField] == Validate(id2, phone1)[PhoneField]
  {
  }

  lemma BothErrorsAtOnce()
    ensures Validate("", "") == map[GrievanceIdField := IdRequired, PhoneField := PhoneRequired]
  {
  }

  /** The record the page shows. */
  datatype Update = Update(date: string, status: R.Status, message: string)

  datatype GrievanceDetail = GrievanceDetail(
    id: string,
    subject: string,
    description: string,
    department: string,
    category: string,
    status: R.Status,
    submittedDate: string,
    lastUpdated: string,
    updates: seq<Update>)

  const WaterSupplyDemo := GrievanceDetail(
    "GR123456",
    "Water Supply Disruption in Neighborhood",
    "There has been no water supply in our neighborhood for the past 3 days. This is causing significant hardship for residents.",
    "Municipal Water Works Department",
    "Water Supply",
    R.InProgress,
    "2025-04-10",
    "2025-04-14",
    [ Update("2025-04-10", R.Pending, "Grievance submitted successfully"),
      Update("2025-04-12", R.InProgress, "Assigned to Municipal Water Works Department"),
      Update("2025-04-14", R.InProgress, "Technical team dispatched to inspect the water supply lines") ])

  const StreetLightDemo := GrievanceDetail(
    "GR654321",
    "Street Light Not Working",
    "The street light at the corner of Main Street and Park Avenue has not been working for two weeks, creating safety concerns.",
    "Electricity Department",
    "Electricity",
    R.Resolved,
    "2025-04-05",
    "2025-04-12",
    [ Update("2025-04-05", R.Pending, "Grievance submitted successfully"),
      Update("2025-04-07", R.InProgress, "Assigned to Electricity Department"),
      Update("2025-04-10", R.InProgress, "Maintenance team scheduled for inspection"),
      Update("2025-04-12", R.Resolved, "Street light repaired and is now functional") ])

  /** The demo search: exactly two identifiers are known, and the phone
      number plays no part. */
  function DemoLookup(grievanceId: string): (r: Option<GrievanceDetail>)
    ensures r.Some? <==> grievanceId == "GR123456" || grievanceId == "GR654321"
    ensures r.Some? ==> r.value.id == grievanceId
  {
    if grievanceId == "GR123456" then Some(WaterSupplyDemo)
    else if grievanceId == "GR654321" then Some(StreetLightDemo)
    else None
  }

  /** The last entry of each demo record's history carries the record's status. */
  lemma DemoHistoriesEndInStatus(id: string)
    requires DemoLookup(id).Some?
    ensures var d := DemoLookup(id).value;
      |d.updates| > 0 && d.updates[|d.updates| - 1].status == d.status
      && d.updates[|d.updates| - 1].date == d.lastUpdated && d.updates[0].date == d.submittedDate
  {
  }

  datatype PageState = PageState(
    grievanceId: string,
    phone: string,
    grievance: Option<GrievanceDetail>,
    formErrors: map<Field, string>)

  /** `searchGrievance()`: the page state once the search has finished. */
  function SearchGrievance(st: PageState): (r: PageState)
    ensures r.grievanceId == st.grievanceId && r.phone == st.phone
    ensures Validate(st.grievanceId, st.phone) != map[] ==>
      r.formErrors == Validate(st.grievanceId, st.phone) && r.grievance == st.grievance
    ensures Validate(st.grievanceId, st.phone) == map[] ==>
      r.formErrors == st.formErrors
      && (r.grievance.Some? <==> st.grievanceId in {"GR123456", "GR654321"})
      && (r.grievance.Some? ==> r.grievance.value.id == st.grievanceId)
  {
    var errors := Validate(st.grievanceId, st.phone);
    if |errors.Keys| > 0 then st.(formErrors := errors)
    else st.(grievance := DemoLookup(st.grievanceId))
  }

  /** A search only happens when both inputs are well formed: a shown record
      that changed implies both passed validation. */
  lemma NoSearchOnError(st: PageState)
    requires SearchGrievance(st).grievance != st.grievance
    ensures IsTrackingIdFormat(st.grievanceId) && IsPhoneFormat(st.phone)
    ensures !IsBlank(st.grievanceId) && !IsBlank(st.phone)
  {
    ValidIdIsNotBlank(st.grievanceId);
  }

  /** A well-formed identifier other than the two demo ones is not found. */
  lemma OtherIdsNotFound(st: PageState)
    requires IsTrackingIdFormat(st.grievanceId) && IsPhoneFormat(st.phone)
    requires !IsBlank(st.phone)
    requires st.grievanceId != "GR123456" && st.grievanceId != "GR654321"
    ensures SearchGrievance(st).grievance.None?
  {
    ValidIdIsNotBlank(st.grievanceId);
    assert Validate(st.grievanceId, st.phone) == map[];
  }

  /** `handleInputChange` for an edit of `field` to `value`: the field takes
      the value, and its error is blanked only when one is showing. */
  function HandleInputChange(st: PageState, field: Field, value: string): (r: PageState)
    ensures field == GrievanceIdField ==> r.grievanceId == value && r.phone == st.phone
    ensures field == PhoneField ==> r.phone == value && r.grievanceId == st.grievanceId
    ensures r.grievance == st.grievance
    ensures r.formErrors.Keys == st.formErrors.Keys
    ensures field in r.formErrors ==> r.formErrors[field] == ""
    ensures forall f :: f in st.formErrors && f != field ==> r.formErrors[f] == st.formErrors[f]
  {
    var st' := if field == GrievanceIdField then st.(grievanceId := value) else st.(phone := value);
    if field in st.formErrors && st.formErrors[field] != "" then
      st'.(formErrors := st.formErrors[field := ""])
    else st'
  }

  /** After an edit the edited field shows no error message. */
  lemma EditClearsOwnError(st: PageState, field: Field, value: string)
    ensures var errs := HandleInputChange(st, field, value).formErrors;
      field !in errs || errs[field] == ""
  {
  }
}
