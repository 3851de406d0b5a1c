/**
 The request payloads and their validators. Each validator runs its checks
 in a fixed order and reports only the first rule the payload breaks; create
 validation also fills in a missing timezone.
 */
module Dto {
  import opened Wrappers
  import opened Text
  import opened Dates
  import opened Models

  /** CreateCustomerRequest, as decoded from the JSON body. */
  datatype CreateRequest = CreateRequest(
    firstName: string,
    lastName: string,
    gender: string,
    timezone: string,
    birthday: string,
    userId: string
  )

  /** UpdateCustomerRequest: a field that is None was absent or null in the body. */
  datatype UpdateRequest = UpdateRequest(
    firstName: Option<string>,
    lastName: Option<string>,
    gender: Option<string>,
    timezone: Option<string>,
    birthday: Option<string>
  )

  /** Longest accepted name, in bytes of UTF-8. */
  const MaxNameBytes := 100

  /** Timezone written into a create request that has none. */
  const DefaultTimezone := "UTC"

  /**
   What the validators read from the clock. `today` is the UTC date of
   time.Now(); `oldest` is the UTC date of time.Now().AddDate(-150, 0, 0), and
   `oldestPastMidnight` says whether that instant lies after midnight of its
   date. A birthday denotes midnight UTC of its date.
   */
  datatype Clock = Clock(today: Date, oldest: Date, oldestPastMidnight: bool)

  /** birthday.After(time.Now()) */
  predicate InFuture(birthday: Date, clock: Clock) {
    Before(clock.today, birthday)
  }

  /** birthday.Before(minDate) */
  predicate TooOld(birthday: Date, clock: Clock) {
    Before(birthday, clock.oldest) || (birthday == clock.oldest && clock.oldestPastMidnight)
  }

  /** Nanoseconds in a day of UTC. */
  const NanosPerDay := 86_400_000_000_000

  /** A time.Time, read in UTC: its date and the nanoseconds since midnight of that date. */
  datatype Instant = Instant(date: Date, sinceMidnight: int)

  predicate WellFormed(t: Instant) {
    0 <= t.sinceMidnight < NanosPerDay
  }

  /** The instant time.Parse gives a birthday: midnight UTC of its date. */
  function Midnight(d: Date): Instant {
    Instant(d, 0)
  }

  /** t.Before(u) on instants. */
  predicate InstantBefore(t: Instant, u: Instant) {
    Before(t.date, u.date) || (t.date == u.date && t.sinceMidnight < u.sinceMidnight)
  }

  /** What the validators keep of time.Now() and of minDate = time.Now().AddDate(-150, 0, 0). */
  function ClockAt(now: Instant, minDate: Instant): Clock {
    Clock(now.date, minDate.date, minDate.sinceMidnight > 0)
  }

  /**
   Comparing dates in a Clock is comparing instants: InFuture is
   birthday.After(now) and TooOld is birthday.Before(minDate), with the
   birthday at midnight UTC.
   */
  lemma ClockReadsInstants(birthday: Date, now: Instant, minDate: Instant)
    requires WellFormed(now) && WellFormed(minDate)
    ensures InFuture(birthday, ClockAt(now, minDate)) <==> InstantBefore(now, Midnight(birthday))
    ensures TooOld(birthday, ClockAt(now, minDate)) <==> InstantBefore(Midnight(birthday), minDate)
  {
  }

  /** The position of a rule in the order both validators check them. */
  function Rank(v: Violation): nat {
    match v
    case FirstNameRequired => 0
    case FirstNameTooLong => 1
    case LastNameRequired => 2
    case LastNameTooLong => 3
    case GenderRequired => 4
    case GenderInvalid => 5
    case BirthdayRequired => 6
    case BirthdayFormat => 7
    case BirthdayInFuture => 8
    case BirthdayTooOld => 9
    case UserIdRequired => 10
  }

  /** Rules the update validator can report (it has no birthday-required or user_id rule). */
  predicate OnUpdate(v: Violation) {
    !v.BirthdayRequired? && !v.UserIdRequired?
  }

  /** The text of the error CreateCustomerRequest.Validate returns. */
  function CreateMessage(v: Violation): string {
    match v
    case FirstNameRequired => "first_name is required"
    case FirstNameTooLong => "first_name too long, max 100 characters"
    case LastNameRequired => "last_name is required"
    case LastNameTooLong => "last_name too long, max 100 characters"
    case GenderRequired => "gender is required"
    case GenderInvalid => "gender must be male or female"
    case BirthdayRequired => "birthday is required"
    case BirthdayFormat => "birthday must be in format YYYY-MM-DD (e.g., 1990-05-15)"
    case BirthdayInFuture => "birthday cannot be in the future"
    case BirthdayTooOld => "birthday is too far in the past"
    case UserIdRequired => "user_id is required"
  }

  /** The text of the error UpdateCustomerRequest.Validate returns. */
  function UpdateMessage(v: Violation): string
    requires OnUpdate(v)
  {
    match v
    case FirstNameRequired => "first_name cannot be empty"
    case FirstNameTooLong => "first_name too long (max 100 characters)"
    case LastNameRequired => "last_name cannot be empty"
    case LastNameTooLong => "last_name too long (max 100 characters)"
    case GenderRequired => "gender cannot be empty"
    case GenderInvalid => "gender must be male or female"
    case BirthdayFormat => "birthday must be in format YYYY-MM-DD"
    case BirthdayInFuture => "birthday cannot be in the future"
    case BirthdayTooOld => "birthday is too far in the past"
  }

  /** Each create error text names one rule: the model loses nothing by keeping the rule. */
  lemma CreateMessagesDistinct(v: Violation, w: Violation)
    ensures CreateMessage(v) == CreateMessage(w) <==> v == w
  {
  }

  /** Each update error text names one rule. */
  lemma UpdateMessagesDistinct(v: Violation, w: Violation)
    requires OnUpdate(v) && OnUpdate(w)
    ensures UpdateMessage(v) == UpdateMessage(w) <==> v == w
  {
  }

  // ---------------------------------------------------------------------------
  // The rules, stated one at a time

  /** A name the validators accept: not blank, and at most 100 bytes long. */
  predicate NameValid(s: string) {
    !IsBlank(s) && Utf8Len(s) <= MaxNameBytes
  }

  /** The gender values accepted, after trimming and lower-casing. */
  predicate IsKnownGender(t: string) {
    t == "male" || t == "female"
  }

  /** A gender the validators accept: "male" or "female", ignoring case and surrounding space. */
  predicate GenderAccepted(g: string) {
    IsKnownGender(ToLower(TrimSpace(g)))
  }

  /** Gender is checked case-insensitively. */
  lemma GenderIgnoresCase(g: string)
    ensures GenderAccepted(ToUpper(g)) <==> GenderAccepted(g)
    ensures GenderAccepted(ToLower(g)) <==> GenderAccepted(g)
  {
    TrimSpaceCommutesWithUpper(g);
    TrimSpaceCommutesWithLower(g);
    LowerForgetsCase(TrimSpace(g));
  }

  /** The date a birthday string denotes, once trimmed, if it parses. */
  function BirthdayDate(s: string): Option<Date> {
    ParseDate(TrimSpace(s))
  }

  /** A parsed birthday inside the accepted window. */
  predicate InWindow(d: Date, clock: Clock) {
    !InFuture(d, clock) && !TooOld(d, clock)
  }

  /** The rules checked before the timezone default are those ranked below the blank-birthday rule. */
  const IdentityRules := Rank(BirthdayRequired)

  /** Whether `req` breaks name or gender rule `v`, judged on that rule alone; other rules are not judged here. */
  predicate IdentityBroken(req: CreateRequest, v: Violation)
    ensures IdentityBroken(req, v) ==> Rank(v) < IdentityRules
  {
    match v
    case FirstNameRequired => IsBlank(req.firstName)
    case FirstNameTooLong => Utf8Len(req.firstName) > MaxNameBytes
    case LastNameRequired => IsBlank(req.lastName)
    case LastNameTooLong => Utf8Len(req.lastName) > MaxNameBytes
    case GenderRequired => IsBlank(req.gender)
    case GenderInvalid => !GenderAccepted(req.gender)
    case _ => false
  }

  /** Whether a birthday and user_id break rule `v`, judged on that rule alone; name and gender rules are not judged here. */
  predicate LaterBroken(birthday: string, userId: string, clock: Clock, v: Violation)
    ensures LaterBroken(birthday, userId, clock, v) ==> IdentityRules <= Rank(v)
  {
    match v
    case BirthdayRequired => IsBlank(birthday)
    case BirthdayFormat => BirthdayDate(birthday).None?
    case BirthdayInFuture => BirthdayDate(birthday).Some? && InFuture(BirthdayDate(birthday).value, clock)
    case BirthdayTooOld => BirthdayDate(birthday).Some? && TooOld(BirthdayDate(birthday).value, clock)
    case UserIdRequired => userId == ""
    case _ => false
  }

  /** Whether `req` breaks rule `v`, judged on that rule alone. */
  predicate BrokenOnCreate(req: CreateRequest, clock: Clock, v: Violation) {
    IdentityBroken(req, v) || LaterBroken(req.birthday, req.userId, clock, v)
  }

  /** Whether `req` breaks rule `v`: an absent field breaks nothing, and timezone is never judged. */
  predicate BrokenOnUpdate(req: UpdateRequest, clock: Clock, v: Violation) {
    match v
    case FirstNameRequired => req.firstName.Some? && IsBlank(req.firstName.value)
    case FirstNameTooLong => req.firstName.Some? && Utf8Len(req.firstName.value) > MaxNameBytes
    case LastNameRequired => req.lastName.Some? && IsBlank(req.lastName.value)
    case LastNameTooLong => req.lastName.Some? && Utf8Len(req.lastName.value) > MaxNameBytes
    case GenderRequired => req.gender.Some? && IsBlank(req.gender.value)
    case GenderInvalid => req.gender.Some? && !GenderAccepted(req.gender.value)
    case BirthdayRequired => false
    case BirthdayFormat => req.birthday.Some? && BirthdayDate(req.birthday.value).None?
    case BirthdayInFuture =>
      req.birthday.Some? && BirthdayDate(req.birthday.value).Some? && InFuture(BirthdayDate(req.birthday.value).value, clock)
    case BirthdayTooOld =>
      req.birthday.Some? && BirthdayDate(req.birthday.value).Some? && TooOld(BirthdayDate(req.birthday.value).value, clock)
    case UserIdRequired => false
  }

  /** The checks before the timezone default all pass. */
  predicate NamesAndGenderValid(req: CreateRequest) {
    NameValid(req.firstName) && NameValid(req.lastName) && GenderAccepted(req.gender)
  }

  // ---------------------------------------------------------------------------
  // The validators, check by check as the Go validators run them

  /** The checks on one name: blank first, then the byte length. */
  function NameCheck(s: string, blank: Violation, long: Violation): (r: Option<Violation>)
    requires blank != long
    ensures r == Some(blank) <==> IsBlank(s)
    ensures r == Some(long) <==> !IsBlank(s) && Utf8Len(s) > MaxNameBytes
    ensures r.None? <==> NameValid(s)
    ensures r == None || r == Some(blank) || r == Some(long)
  {
    if TrimSpace(s) == "" then Some(blank)
    else if Utf8Len(s) > MaxNameBytes then Some(long)
    else None
  }

  /** The checks on the gender: blank first, then the accepted values. */
  function GenderCheck(g: string): (r: Option<Violation>)
    ensures r == Some(GenderRequired) <==> IsBlank(g)
    ensures r == Some(GenderInvalid) <==> !IsBlank(g) && !GenderAccepted(g)
    ensures r.None? <==> GenderAccepted(g)
    ensures r == None || r == Some(GenderRequired) || r == Some(GenderInvalid)
  {
    if TrimSpace(g) == "" then Some(GenderRequired)
    else if !IsKnownGender(ToLower(TrimSpace(g))) then Some(GenderInvalid)
    else None
  }

  /** The checks on a birthday string: the format of the trimmed text, then the window. */
  function BirthdayCheck(s: string, clock: Clock): (r: Option<Violation>)
    ensures r == Some(BirthdayFormat) <==> BirthdayDate(s).None?
    ensures r == Some(BirthdayInFuture) <==> BirthdayDate(s).Some? && InFuture(BirthdayDate(s).value, clock)
    ensures r == Some(BirthdayTooOld) <==>
      BirthdayDate(s).Some? && !InFuture(BirthdayDate(s).value, clock) && TooOld(BirthdayDate(s).value, clock)
    ensures r.None? <==> BirthdayDate(s).Some? && InWindow(BirthdayDate(s).value, clock)
    ensures r == None || r == Some(BirthdayFormat) || r == Some(BirthdayInFuture) || r == Some(BirthdayTooOld)
  {
    match ParseDate(TrimSpace(s))
    case None => Some(BirthdayFormat)
    case Some(birthday) =>
      if InFuture(birthday, clock) then Some(BirthdayInFuture)
      else if TooOld(birthday, clock) then Some(BirthdayTooOld)
      else None
  }

  /** Create validation up to the timezone default: first name, last name, gender. */
  function IdentityCheck(req: CreateRequest): (r: Option<Violation>)
    ensures r.None? <==> NamesAndGenderValid(req)
  {
    var first := NameCheck(req.firstName, FirstNameRequired, FirstNameTooLong);
    var last := NameCheck(req.lastName, LastNameRequired, LastNameTooLong);
    if first.Some? then first else if last.Some? then last else GenderCheck(req.gender)
  }

  /** Create validation after the timezone default: birthday, then user_id. */
  function RemainingCheck(birthday: string, userId: string, clock: Clock): (r: Option<Violation>)
    ensures r.None? ==> BirthdayDate(birthday).Some? && InWindow(BirthdayDate(birthday).value, clock)
  {
    if TrimSpace(birthday) == "" then Some(BirthdayRequired)
    else
      var window := BirthdayCheck(birthday, clock);
      if window.Some? then window
      else if userId == "" then Some(UserIdRequired)
      else None
  }

  /** The outcome of create validation: the request as it stands afterwards, and the first violation. */
  datatype Checked = Checked(request: CreateRequest, violation: Option<Violation>)

  /** CreateCustomerRequest.Validate. */
  function ValidateCreate(req: CreateRequest, clock: Clock): (r: Checked)
    ensures r.violation.None? ==> NamesAndGenderValid(req)
    ensures r.violation.None? ==> BirthdayDate(req.birthday).Some? && InWindow(BirthdayDate(req.birthday).value, clock)
    // only the timezone can change, and only from "" to "UTC" once names and gender have passed
    ensures r.request.(timezone := req.timezone) == req
    ensures r.request.timezone ==
      (if req.timezone == "" && NamesAndGenderValid(req) then DefaultTimezone else req.timezone)
  {
    var early := IdentityCheck(req);
    if early.Some? then Checked(req, early)
    else
      var req' := if req.timezone == "" then req.(timezone := DefaultTimezone) else req;
      Checked(req', RemainingCheck(req'.birthday, req'.userId, clock))
  }

  /** UpdateCustomerRequest.Validate: every absent field is skipped, a present one is checked as on create. */
  function ValidateUpdate(req: UpdateRequest, clock: Clock): (r: Option<Violation>)
    ensures r.Some? ==> OnUpdate(r.value)
    ensures req.firstName.None? && req.lastName.None? && req.gender.None? && req.birthday.None? ==> r.None?
    ensures r.None? && req.birthday.Some? ==>
      BirthdayDate(req.birthday.value).Some? && InWindow(BirthdayDate(req.birthday.value).value, clock)
  {
    var first := if req.firstName.Some? then NameCheck(req.firstName.value, FirstNameRequired, FirstNameTooLong) else None;
    var last := if req.lastName.Some? then NameCheck(req.lastName.value, LastNameRequired, LastNameTooLong) else None;
    var gender := if req.gender.Some? then GenderCheck(req.gender.value) else None;
    var birthday := if req.birthday.Some? then BirthdayCheck(req.birthday.value, clock) else None;
    if first.Some? then first
    else if last.Some? then last
    else if gender.Some? then gender
    else birthday
  }

  /** No violation was reported, or the one reported comes after rule number `k`. */
  predicate Beyond(r: Option<Violation>, k: int) {
    r.None? || Rank(r.value) > k
  }

  /** The name and gender checks that come before the one reported have all passed. */
  lemma IdentityPassed(req: CreateRequest)
    ensures Beyond(IdentityCheck(req), 0) ==> !IsBlank(req.firstName)
    ensures Beyond(IdentityCheck(req), 1) ==> Utf8Len(req.firstName) <= MaxNameBytes
    ensures Beyond(IdentityCheck(req), 2) ==> !IsBlank(req.lastName)
    ensures Beyond(IdentityCheck(req), 3) ==> Utf8Len(req.lastName) <= MaxNameBytes
    ensures Beyond(IdentityCheck(req), 4) ==> !IsBlank(req.gender)
    ensures Beyond(IdentityCheck(req), 5) ==> GenderAccepted(req.gender)
  {
  }

  /** The rule the name and gender stage reports is broken. */
  lemma IdentityReportsBroken(req: CreateRequest)
    ensures IdentityCheck(req).Some? ==> IdentityBroken(req, IdentityCheck(req).value)
  {
  }

  /** The name and gender stage reports the first of its rules that is broken, or none if none is. */
  lemma IdentityReportsFirstBroken(req: CreateRequest)
    ensures IdentityCheck(req).None? ==> forall v :: !IdentityBroken(req, v)
    ensures IdentityCheck(req).Some? ==>
      forall v :: Rank(v) < Rank(IdentityCheck(req).value) ==> !IdentityBroken(req, v)
  {
    var r := IdentityCheck(req);
    var limit := if r.Some? then Rank(r.value) else IdentityRules;
    IdentityPassed(req);
    forall v | Rank(v) < limit ensures !IdentityBroken(req, v) {
      match v
      case FirstNameRequired =>
      case FirstNameTooLong =>
      case LastNameRequired =>
      case LastNameTooLong =>
      case GenderRequired =>
      case GenderInvalid =>
      case _ =>
    }
  }

  /** The birthday and user_id checks that come before the one reported have all passed. */
  lemma RemainingPassed(birthday: string, userId: string, clock: Clock)
    ensures Beyond(RemainingCheck(birthday, userId, clock), 6) ==> !IsBlank(birthday)
    ensures Beyond(RemainingCheck(birthday, userId, clock), 7) ==> BirthdayDate(birthday).Some?
    ensures Beyond(RemainingCheck(birthday, userId, clock), 8) ==> !InFuture(BirthdayDate(birthday).value, clock)
    ensures Beyond(RemainingCheck(birthday, userId, clock), 9) ==> !TooOld(BirthdayDate(birthday).value, clock)
    ensures Beyond(RemainingCheck(birthday, userId, clock), 10) ==> userId != ""
  {
  }

  /** The rule the birthday and user_id stage reports is broken. */
  lemma RemainingReportsBroken(birthday: string, userId: string, clock: Clock)
    ensures RemainingCheck(birthday, userId, clock).Some? ==>
      LaterBroken(birthday, userId, clock, RemainingCheck(birthday, userId, clock).value)
  {
  }

  /** The birthday and user_id stage reports the first of its rules that is broken, or none if none is. */
  lemma RemainingReportsFirstBroken(birthday: string, userId: string, clock: Clock)
    ensures RemainingCheck(birthday, userId, clock).None? ==> forall v :: !LaterBroken(birthday, userId, clock, v)
    ensures RemainingCheck(birthday, userId, clock).Some? ==>
      forall v :: Rank(v) < Rank(RemainingCheck(birthday, userId, clock).value) ==>
        !LaterBroken(birthday, userId, clock, v)
  {
    var r := RemainingCheck(birthday, userId, clock);
    var limit := if r.Some? then Rank(r.value) else 11;
    RemainingPassed(birthday, userId, clock);
    forall v | Rank(v) < limit ensures !LaterBroken(birthday, userId, clock, v) {
      match v
      case BirthdayRequired =>
      case BirthdayFormat =>
      case BirthdayInFuture =>
      case BirthdayTooOld =>
      case UserIdRequired =>
      case _ =>
    }
  }

  /** Create validation reports a rule exactly when one is broken, and then the first broken one. */
  lemma CreateReportsFirstBroken(req: CreateRequest, clock: Clock)
    ensures ValidateCreate(req, clock).violation.None? <==> forall v :: !BrokenOnCreate(req, clock, v)
    ensures ValidateCreate(req, clock).violation.Some? ==>
      BrokenOnCreate(req, clock, ValidateCreate(req, clock).violation.value)
    ensures ValidateCreate(req, clock).violation.Some? ==>
      forall v :: Rank(v) < Rank(ValidateCreate(req, clock).violation.value) ==> !BrokenOnCreate(req, clock, v)
  {
    var r := ValidateCreate(req, clock).violation;
    var early := IdentityCheck(req);
    IdentityReportsBroken(req);
    IdentityReportsFirstBroken(req);
    if early.Some? {
      assert r == early;
      var u := early.value;
      assert BrokenOnCreate(req, clock, u);
      forall v | Rank(v) < Rank(u) ensures !BrokenOnCreate(req, clock, v) {
        assert !IdentityBroken(req, v);
        assert !LaterBroken(req.birthday, req.userId, clock, v);
      }
    } else {
      var late := RemainingCheck(req.birthday, req.userId, clock);
      assert ValidateCreate(req, clock).request.birthday == req.birthday;
      assert ValidateCreate(req, clock).request.userId == req.userId;
      assert r == late;
      RemainingReportsBroken(req.birthday, req.userId, clock);
      RemainingReportsFirstBroken(req.birthday, req.userId, clock);
      if late.Some? {
        assert BrokenOnCreate(req, clock, late.value);
        forall v | Rank(v) < Rank(late.value) ensures !BrokenOnCreate(req, clock, v) {
          assert !IdentityBroken(req, v);
        }
      } else {
        forall v ensures !BrokenOnCreate(req, clock, v) {
          assert !IdentityBroken(req, v);
        }
      }
    }
  }

  /** The update name and gender checks that come before the one reported have all passed. */
  lemma UpdatePassed(req: UpdateRequest, clock: Clock)
    ensures Beyond(ValidateUpdate(req, clock), 0) && req.firstName.Some? ==> !IsBlank(req.firstName.value)
    ensures Beyond(ValidateUpdate(req, clock), 1) && req.firstName.Some? ==> Utf8Len(req.firstName.value) <= MaxNameBytes
    ensures Beyond(ValidateUpdate(req, clock), 2) && req.lastName.Some? ==> !IsBlank(req.lastName.value)
    ensures Beyond(ValidateUpdate(req, clock), 3) && req.lastName.Some? ==> Utf8Len(req.lastName.value) <= MaxNameBytes
    ensures Beyond(ValidateUpdate(req, clock), 4) && req.gender.Some? ==> !IsBlank(req.gender.value)
    ensures Beyond(ValidateUpdate(req, clock), 5) && req.gender.Some? ==> GenderAccepted(req.gender.value)
  {
  }

  /** The update birthday checks that come before the one reported have all passed. */
  lemma UpdateBirthdayPassed(req: UpdateRequest, clock: Clock)
    ensures Beyond(ValidateUpdate(req, clock), 7) && req.birthday.Some? ==> BirthdayDate(req.birthday.value).Some?
    ensures Beyond(ValidateUpdate(req, clock), 8) && req.birthday.Some? ==>
      !InFuture(BirthdayDate(req.birthday.value).value, clock)
    ensures Beyond(ValidateUpdate(req, clock), 9) && req.birthday.Some? ==>
      !TooOld(BirthdayDate(req.birthday.value).value, clock)
  {
  }

  /** The rule update validation reports is broken by a supplied field. */
  lemma UpdateReportsBroken(req: UpdateRequest, clock: Clock)
    ensures ValidateUpdate(req, clock).Some? ==> BrokenOnUpdate(req, clock, ValidateUpdate(req, clock).value)
  {
    var r := ValidateUpdate(req, clock);
    if r.Some? {
      match r.value
      case FirstNameRequired =>
      case FirstNameTooLong =>
      case LastNameRequired =>
      case LastNameTooLong =>
      case GenderRequired =>
      case GenderInvalid =>
      case BirthdayFormat =>
      case BirthdayInFuture =>
      case BirthdayTooOld =>
    }
  }

  /** No supplied field breaks a rule that comes before the one reported, nor any rule if none is reported. */
  lemma UpdateEarlierRulesHold(req: UpdateRequest, clock: Clock)
    ensures ValidateUpdate(req, clock).None? ==> forall v :: !BrokenOnUpdate(req, clock, v)
    ensures ValidateUpdate(req, clock).Some? ==>
      forall v :: Rank(v) < Rank(ValidateUpdate(req, clock).value) ==> !BrokenOnUpdate(req, clock, v)
  {
    var r := ValidateUpdate(req, clock);
    var limit := if r.Some? then Rank(r.value) else 11;
    UpdatePassed(req, clock);
    UpdateBirthdayPassed(req, clock);
    forall v | Rank(v) < limit ensures !BrokenOnUpdate(req, clock, v) {
      match v
      case FirstNameRequired =>
      case FirstNameTooLong =>
      case LastNameRequired =>
      case LastNameTooLong =>
      case GenderRequired =>
      case GenderInvalid =>
      case BirthdayRequired =>
      case BirthdayFormat =>
      case BirthdayInFuture =>
      case BirthdayTooOld =>
      case UserIdRequired =>
    }
  }

  /** Update validation reports a rule exactly when a supplied field breaks one, and then the first. */
  lemma UpdateReportsFirstBroken(req: UpdateRequest, clock: Clock)
    ensures ValidateUpdate(req, clock).None? <==> forall v :: !BrokenOnUpdate(req, clock, v)
    ensures ValidateUpdate(req, clock).Some? ==> BrokenOnUpdate(req, clock, ValidateUpdate(req, clock).value)
    ensures ValidateUpdate(req, clock).Some? ==>
      forall v :: Rank(v) < Rank(ValidateUpdate(req, clock).value) ==> !BrokenOnUpdate(req, clock, v)
  {
    UpdateReportsBroken(req, clock);
    UpdateEarlierRulesHold(req, clock);
  }

  /** A birthday that spells a date after today is rejected as in the future, whatever the user_id. */
  lemma FutureBirthdayRejected(req: CreateRequest, clock: Clock, d: Date)
    requires NamesAndGenderValid(req) && Spells(TrimSpace(req.birthday), d)
    requires Before(clock.today, d)
    ensures ValidateCreate(req, clock).violation == Some(BirthdayInFuture)
  {
    ParseFormat(d);
    assert BirthdayDate(req.birthday) == Some(d);
    assert !IsBlank(req.birthday);
    BirthdayStageReached(req, clock);
  }

  /** Once names and gender pass, create validation reports what the birthday and user_id checks report. */
  lemma BirthdayStageReached(req: CreateRequest, clock: Clock)
    requires NamesAndGenderValid(req)
    ensures ValidateCreate(req, clock).violation == RemainingCheck(req.birthday, req.userId, clock)
  {
  }

  /** A birthday 200 years back is too old when the window reaches back 150 years. */
  lemma TwoHundredYearsBackRejected(req: CreateRequest, clock: Clock, d: Date)
    requires NamesAndGenderValid(req) && Spells(TrimSpace(req.birthday), d)
    requires clock.oldest.year == clock.today.year - 150 && d.year == clock.today.year - 200
    ensures ValidateCreate(req, clock).violation == Some(BirthdayTooOld)
  {
    ParseFormat(d);
    assert BirthdayDate(req.birthday) == Some(d);
    assert !IsBlank(req.birthday);
    assert !InFuture(d, clock) && TooOld(d, clock);
    BirthdayStageReached(req, clock);
  }

  /** When `v` is broken and no earlier rule is, create validation reports `v`. */
  lemma OnlyBrokenRuleReported(req: CreateRequest, clock: Clock, v: Violation)
    requires BrokenOnCreate(req, clock, v)
    requires forall w :: Rank(w) < Rank(v) ==> !BrokenOnCreate(req, clock, w)
    ensures ValidateCreate(req, clock).violation == Some(v)
  {
    CreateReportsFirstBroken(req, clock);
    var r := ValidateCreate(req, clock).violation;
    assert r.Some?;
    var u := r.value;
    assert BrokenOnCreate(req, clock, u);
    assert !(Rank(u) < Rank(v));
    assert !(Rank(v) < Rank(u));
    RankInjective(u, v);
  }

  lemma RankInjective(v: Violation, w: Violation)
    requires Rank(v) == Rank(w)
    ensures v == w
  {
  }

  /** CreateCustomerRequest.ParseBirthday: the date of the trimmed birthday. */
  function ParseCreateBirthday(req: CreateRequest): (r: Result<Date, Error>)
    ensures r.Ok? ==> Spells(TrimSpace(req.birthday), r.value)
    ensures r.Err? ==> r.error == DateSyntax && forall d :: !Spells(TrimSpace(req.birthday), d)
  {
    ParseDateCharacterized(TrimSpace(req.birthday));
    match ParseDate(TrimSpace(req.birthday))
    case None => Err(DateSyntax)
    case Some(d) => Ok(d)
  }

  /** UpdateCustomerRequest.ParseBirthday: nothing for an absent birthday, else the date of the trimmed text. */
  function ParseUpdateBirthday(req: UpdateRequest): (r: Result<Option<Date>, Error>)
    ensures req.birthday.None? ==> r == Ok(None)
    ensures req.birthday.Some? && r.Ok? ==>
      r.value.Some? && Spells(TrimSpace(req.birthday.value), r.value.value)
    ensures req.birthday.Some? && r.Err? ==>
      r.error == DateSyntax && forall d :: !Spells(TrimSpace(req.birthday.value), d)
  {
    match req.birthday
    case None => Ok(None)
    case Some(s) =>
      ParseDateCharacterized(TrimSpace(s));
      match ParseDate(TrimSpace(s))
      case None => Err(DateSyntax)
      case Some(d) => Ok(Some(d))
  }
}
