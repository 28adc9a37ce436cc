/** The driver's trip form: three locations and the hours already used in
    the current cycle, the error messages `validateForm` records, and the
    state updates of typing, submitting and resetting. */
module TripForm {

  import opened Wrappers
  import opened JsStrings
  import opened JsNumbers

  datatype Field = CurrentLocation | PickupLocation | DropoffLocation | CycleHours

  /** The form's text inputs, as typed; the cycle hours stay a string. */
  datatype FormData = FormData(currentLocation: string, pickupLocation: string,
                               dropoffLocation: string, cycleHours: string)
  {
    /** `formData[field]` */
    function Get(f: Field): string {
      match f
      case CurrentLocation => currentLocation
      case PickupLocation => pickupLocation
      case DropoffLocation => dropoffLocation
      case CycleHours => cycleHours
    }

    /** `{ ...formData, [field]: value }` */
    function Set(f: Field, value: string): (r: FormData)
      ensures r.Get(f) == value
      ensures forall g :: g != f ==> r.Get(g) == Get(g)
    {
      match f
      case CurrentLocation => this.(currentLocation := value)
      case PickupLocation => this.(pickupLocation := value)
      case DropoffLocation => this.(dropoffLocation := value)
      case CycleHours => this.(cycleHours := value)
    }
  }

  const EmptyForm: FormData := FormData("", "", "", "")

  /** What is handed to `fetchRoute`: the form and the time of submission. */
  datatype Submission = Submission(form: FormData, time: string)

  /** The messages the form shows under its fields; `Cleared` is the empty
      message a field's error is overwritten with once the field changes. */
  datatype Message =
    | CurrentLocationRequired | PickupLocationRequired | DropoffLocationRequired
    | CycleHoursRequired | HoursMustBePositive | HoursCannotExceed70 | Cleared

  /** The wording of a message; only `Cleared` is empty (falsy). */
  function Text(m: Message): (s: string)
    ensures s == "" <==> m == Cleared
  {
    match m
    case CurrentLocationRequired => "Current location is required"
    case PickupLocationRequired => "Pickup location is required"
    case DropoffLocationRequired => "Dropoff location is required"
    case CycleHoursRequired => "Cycle hours are required"
    case HoursMustBePositive => "Hours must be positive"
    case HoursCannotExceed70 => "Hours cannot exceed 70"
    case Cleared => ""
  }

  /** The most hours of the 70-hour/8-day cycle the form accepts. */
  const MaxCycleHours: real := 70.0

  function RequiredMessage(f: Field): Message
    requires f != CycleHours
  {
    match f
    case CurrentLocation => CurrentLocationRequired
    case PickupLocation => PickupLocationRequired
    case DropoffLocation => DropoffLocationRequired
  }

  /** The check of a location: `!value.trim()` fails it. */
  function LocationError(f: Field, value: string): (e: Option<Message>)
    requires f != CycleHours
    ensures e.Some? ==> e.value == RequiredMessage(f)
  {
    if Trim(value) == "" then Some(RequiredMessage(f)) else None
  }

  /** A location fails its check exactly when it is empty or white space
      only. */
  lemma LocationErrorIffBlank(f: Field, value: string)
    requires f != CycleHours
    ensures LocationError(f, value).Some? <==> AllSpace(value)
  {
    TrimEmptyIffBlank(value);
  }

  /** The check of the cycle hours: they must be given, and then must not
      read (`parseFloat`) below 0 nor above 70. */
  function CycleHoursError(hours: string): (e: Option<Message>)
    ensures e == Some(CycleHoursRequired) <==> hours == ""
  {
    if hours == "" then Some(CycleHoursRequired)
    else
      var reading := ParseFloat(hours);
      if reading.Below(0.0) then Some(HoursMustBePositive)
      else if reading.Above(MaxCycleHours) then Some(HoursCannotExceed70)
      else None
  }

  /** Given hours fail as not positive exactly when they read below 0, as
      too many exactly when they read above 70, and pass otherwise; a
      non-numeric entry reads as NaN and so passes. */
  lemma CycleHoursErrorCases(hours: string)
    requires hours != ""
    ensures CycleHoursError(hours) == Some(HoursMustBePositive) <==> ParseFloat(hours).Below(0.0)
    ensures CycleHoursError(hours) == Some(HoursCannotExceed70) <==> ParseFloat(hours).Above(MaxCycleHours)
    ensures CycleHoursError(hours).None? <==>
              !ParseFloat(hours).Below(0.0) && !ParseFloat(hours).Above(MaxCycleHours)
  {
    var reading := ParseFloat(hours);
    if reading.Below(0.0) {
      assert !reading.Above(MaxCycleHours);
    }
  }

  /** The check `validateForm` makes of one field. */
  function FieldError(form: FormData, f: Field): Option<Message> {
    if f == CycleHours then CycleHoursError(form.cycleHours) else LocationError(f, form.Get(f))
  }

  /** `newErrors[f] = message` when the check of `f` failed. */
  function Note(errs: map<Field, Message>, f: Field, e: Option<Message>): map<Field, Message> {
    if e.Some? then errs[f := e.value] else errs
  }

  /** The error map `validateForm` builds, field after field. */
  function Errors(form: FormData): map<Field, Message> {
    var m1 := Note(map[], CurrentLocation, FieldError(form, CurrentLocation));
    var m2 := Note(m1, PickupLocation, FieldError(form, PickupLocation));
    var m3 := Note(m2, DropoffLocation, FieldError(form, DropoffLocation));
    Note(m3, CycleHours, FieldError(form, CycleHours))
  }

  /** Nothing noted and nothing to note leaves the map empty, and only then. */
  lemma NoteEmpty(errs: map<Field, Message>, f: Field, e: Option<Message>)
    ensures Note(errs, f, e) == map[] <==> errs == map[] && e.None?
  {
    if e.Some? {
      assert f in Note(errs, f, e);
    }
  }

  /** A conditional write touches its own key and keeps every other. */
  lemma NoteAt(errs: map<Field, Message>, f: Field, e: Option<Message>, g: Field)
    ensures g in Note(errs, f, e) <==> (g == f && e.Some?) || g in errs
    ensures g == f && e.Some? ==> Note(errs, f, e)[g] == e.value
    ensures g != f && g in errs ==> Note(errs, f, e)[g] == errs[g]
  {
  }

  /** The error map holds a message for exactly the fields whose check
      failed, and that message is the check's. */
  lemma ErrorsAt(form: FormData, f: Field)
    ensures f in Errors(form) <==> FieldError(form, f).Some?
    ensures f in Errors(form) ==> Errors(form)[f] == FieldError(form, f).value
  {
    var m1 := Note(map[], CurrentLocation, FieldError(form, CurrentLocation));
    var m2 := Note(m1, PickupLocation, FieldError(form, PickupLocation));
    var m3 := Note(m2, DropoffLocation, FieldError(form, DropoffLocation));
    NoteAt(map[], CurrentLocation, FieldError(form, CurrentLocation), f);
    NoteAt(m1, PickupLocation, FieldError(form, PickupLocation), f);
    NoteAt(m2, DropoffLocation, FieldError(form, DropoffLocation), f);
    NoteAt(m3, CycleHours, FieldError(form, CycleHours), f);
  }

  /** The form a submission may go out with, said field by field. */
  predicate Acceptable(form: FormData) {
    && !AllSpace(form.currentLocation)
    && !AllSpace(form.pickupLocation)
    && !AllSpace(form.dropoffLocation)
    && form.cycleHours != ""
    && !ParseFloat(form.cycleHours).Below(0.0)
    && !ParseFloat(form.cycleHours).Above(MaxCycleHours)
  }

  /** `validateForm` reports no error exactly on an acceptable form. */
  lemma NoErrorsIffAcceptable(form: FormData)
    ensures Errors(form) == map[] <==> Acceptable(form)
  {
    var e1, e2, e3, e4 := FieldError(form, CurrentLocation), FieldError(form, PickupLocation),
                          FieldError(form, DropoffLocation), FieldError(form, CycleHours);
    var m1 := Note(map[], CurrentLocation, e1);
    var m2 := Note(m1, PickupLocation, e2);
    var m3 := Note(m2, DropoffLocation, e3);
    NoteEmpty(map[], CurrentLocation, e1);
    NoteEmpty(m1, PickupLocation, e2);
    NoteEmpty(m2, DropoffLocation, e3);
    NoteEmpty(m3, CycleHours, e4);
    LocationErrorIffBlank(CurrentLocation, form.currentLocation);
    LocationErrorIffBlank(PickupLocation, form.pickupLocation);
    LocationErrorIffBlank(DropoffLocation, form.dropoffLocation);
    if form.cycleHours != "" {
      CycleHoursErrorCases(form.cycleHours);
    }
    assert Errors(form) == map[] <==> e1.None? && e2.None? && e3.None? && e4.None?;
  }

  /** A change to one field leaves every other field's check as it was. */
  lemma ChangeIsLocal(form: FormData, f: Field, value: string, g: Field)
    requires g != f
    ensures FieldError(form.Set(f, value), g) == FieldError(form, g)
  {
  }

  /** Whole numbers of hours pass exactly up to 70 inclusive; 0 passes. */
  lemma WholeCycleHours(form: FormData, n: nat)
    requires form.cycleHours == NatToString(n)
    ensures FieldError(form, CycleHours) == if n <= 70 then None else Some(HoursCannotExceed70)
  {
    ParseFloatOfNat(n);
  }

  /** A negative whole number of hours is refused as not positive. */
  lemma NegativeCycleHours(form: FormData, n: nat)
    requires n > 0 && form.cycleHours == "-" + NatToString(n)
    ensures FieldError(form, CycleHours) == Some(HoursMustBePositive)
  {
    ParseFloatOfNegated(n);
  }

  /** A form whose locations are blank and whose hours are empty fails
      every check, each with its "required" message. */
  lemma BlankFormErrors(form: FormData)
    requires AllSpace(form.currentLocation) && AllSpace(form.pickupLocation)
    requires AllSpace(form.dropoffLocation) && form.cycleHours == ""
    ensures Errors(form) == map[CurrentLocation := RequiredMessage(CurrentLocation),
                                PickupLocation := RequiredMessage(PickupLocation),
                                DropoffLocation := RequiredMessage(DropoffLocation),
                                CycleHours := CycleHoursRequired]
  {
    LocationErrorIffBlank(CurrentLocation, form.currentLocation);
    LocationErrorIffBlank(PickupLocation, form.pickupLocation);
    LocationErrorIffBlank(DropoffLocation, form.dropoffLocation);
  }

  /** The emptied form is such a form. */
  lemma EmptyFormErrors()
    ensures Errors(EmptyForm) == map[CurrentLocation := RequiredMessage(CurrentLocation),
                                     PickupLocation := RequiredMessage(PickupLocation),
                                     DropoffLocation := RequiredMessage(DropoffLocation),
                                     CycleHours := CycleHoursRequired]
  {
    BlankFormErrors(EmptyForm);
  }

  /** The `DriverForm` component's state: `formData`, `errors` and
      `submitted`, and its event handlers. */
  class DriverForm {
    var formData: FormData
    var errors: map<Field, Message>
    var submitted: bool

    constructor ()
      ensures formData == EmptyForm && errors == map[] && !submitted
    {
      formData := EmptyForm;
      errors := map[];
      submitted := false;
    }

    /** `handleChange(field)(event)`: stores the typed value and, if that
        field shows an error, blanks that one message. */
    method HandleChange(field: Field, value: string)
      modifies this
      ensures formData == old(formData).Set(field, value)
      ensures field in old(errors) && Text(old(errors)[field]) != "" ==> errors == old(errors)[field := Cleared]
      ensures !(field in old(errors) && Text(old(errors)[field]) != "") ==> errors == old(errors)
      ensures submitted == old(submitted)
    {
      formData := formData.Set(field, value);
      if field in errors && Text(errors[field]) != "" {
        errors := errors[field := Cleared];
      }
    }

    /** `validateForm`: collects the messages of the failing fields in a
        fresh map, stores it, and answers whether it is empty. */
    method ValidateForm() returns (valid: bool)
      modifies this
      ensures formData == old(formData) && submitted == old(submitted)
      ensures errors == Errors(formData)
      ensures valid <==> errors == map[]
    {
      var form := formData;
      var newErrors: map<Field, Message> := map[];
      newErrors := Note(newErrors, CurrentLocation, FieldError(form, CurrentLocation));
      newErrors := Note(newErrors, PickupLocation, FieldError(form, PickupLocation));
      newErrors := Note(newErrors, DropoffLocation, FieldError(form, DropoffLocation));
      newErrors := Note(newErrors, CycleHours, FieldError(form, CycleHours));
      errors := newErrors;
      valid := |newErrors| == 0;
    }

    /** `handleSubmit`: validates, and only on success marks the form
        submitted and returns the request `fetchRoute` is called with. */
    method HandleSubmit(now: string) returns (request: Option<Submission>)
      modifies this
      ensures formData == old(formData)
      ensures errors == Errors(formData)
      ensures request.Some? <==> Acceptable(formData)
      ensures request.Some? ==> request.value == Submission(formData, now)
      ensures submitted == (old(submitted) || request.Some?)
    {
      var valid := ValidateForm();
      NoErrorsIffAcceptable(formData);
      if valid {
        request := Some(Submission(formData, now));
        submitted := true;
      } else {
        request := None;
      }
    }

    /** `handleReset`: every field emptied, no errors, not submitted. */
    method HandleReset()
      modifies this
      ensures formData == EmptyForm && errors == map[] && !submitted
    {
      formData := EmptyForm;
      errors := map[];
      submitted := false;
    }
  }
}
