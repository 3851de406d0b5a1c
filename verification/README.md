# Customer service core, in Dafny

This project models the customer pipeline of a small Go REST service. A
customer record holds an id, first and last name, gender, timezone, birthday,
the owning user's id and a creation timestamp. The pipeline has four layers:

- **DTO validators** (`Dto`): the create and update payload checks. They run in
  a fixed order and report only the first broken rule. Create validation also
  sets an empty timezone to `"UTC"`.
- **Service** (`Service`): create runs validate, parse `user_id`, parse the
  birthday, build the record and insert it. Update runs validate, fetch the row,
  overlay the supplied fields, and write back. Get and get-all pass the
  repository's answer through.
- **Repository** (`Repository`): the customers table is a `map<Uuid, Customer>`.
  Every statement is a pure function from the table before to the table after
  plus the returned error. How the database driver behaves (the statement
  fails, or the affected-row count fails) is an explicit input.
- **HTTP handlers** (`Handler`): decoding the path id and the body, calling the
  service, and mapping the outcome to a status code and JSON payload.

Supporting modules:

- `Text`: Go's `strings.TrimSpace` over the full `unicode.IsSpace` set, ASCII
  case mapping, and `len` as UTF-8 byte length.
- `Dates`: `time.Parse("2006-01-02", …)` as a verified parser with a formatter
  and both round trips.
- `Models`: the record and the error chain. Each `fmt.Errorf("…: %w")` adds one
  link, and `errors.Is(err, ErrUserNotFound)` is `IsNotFound`.

Inputs from outside are parameters, collected in `Service.Env`:

- the clock, as the two dates the validators compare against;
- `uuid.Parse`, as a function `string -> Option<Uuid>`;
- `uuid.New()`, as a fresh id;
- the `created_at` default the database fills in;
- one driver behaviour for the read and one for the write.

The main properties proved:

- Each validator reports a rule exactly when the payload breaks one, and that
  rule is the first broken one in rank order. Both directions are proved against
  an independent one-rule-at-a-time definition (`BrokenOnCreate`, `BrokenOnUpdate`).
- `ParseDate` accepts exactly the canonical spellings of valid dates with years
  0000–9999, and `ParseDate ∘ FormatDate` is the identity.
- `TrimSpace` removes exactly the white-space padding, is idempotent, and
  commutes with case mapping. So the gender check ignores case.
- Create and update keep every stored row valid and keyed by its own id. A
  created customer reads back as returned, apart from created_at, which holds the table default. Update changes no row but `id`.
- The handlers' status codes are characterised exactly in terms of the service
  outcome.

## Model

| member | source | states |
|---|---|---|
| `Text.TrimSpace` | internal/domain/dto/customer.go:19 | the trimmed string is empty exactly when the input is all white space, and neither of its ends is white space |
| `Text.TrimSpaceRemovesPadding` | internal/domain/dto/customer.go:19 | the input is blank padding, then the trimmed string, then blank padding |
| `Text.TrimSpaceOfPadded` | internal/domain/dto/customer.go:19 | trimming any blank-padded string whose ends are not space gives that string back |
| `Text.TrimSpaceIdempotent` | internal/domain/dto/customer.go:44 | trimming twice is trimming once |
| `Text.CaseKeepsSpaces` | internal/domain/dto/customer.go:34 | upper- or lower-casing keeps a string blank, or keeps its ends non-space, exactly when the original was |
| `Text.TrimSpaceCommutesWithUpper` | internal/domain/dto/customer.go:34 | trimming and upper-casing give the same result in either order |
| `Text.TrimSpaceCommutesWithLower` | internal/domain/dto/customer.go:34 | trimming and lower-casing give the same result in either order |
| `Text.LowerForgetsCase` | internal/domain/dto/customer.go:34 | lower-casing after any case mapping is plain lower-casing, and lower-casing is idempotent |
| `Text.Utf8Len` | internal/domain/dto/customer.go:22 | the byte length is between one and four times the rune count, and equals the rune count exactly when every rune is ASCII |
| `Text.ToLowerCharacterized` | internal/domain/dto/customer.go:34 | `ToLower`'s result has the input's length and no ASCII capital, turns each ASCII capital into its own small letter, keeps every other rune, and equals the input exactly when it had no ASCII capital |
| `Dates.DaysIn` | internal/domain/dto/customer.go:44 | every month has 28 to 31 days, and 29 exactly for February of a Gregorian leap year |
| `Dates.BeforeIsStrictTotalOrder` | internal/domain/dto/customer.go:49-54 | the date order used for the window checks is irreflexive, asymmetric, transitive and total |
| `Dates.ParseDate` | internal/domain/dto/customer.go:44 | a string that parses gives a valid calendar date with a year from 0000 to 9999 |
| `Dates.FormatDate` | internal/domain/dto/customer.go:44 | a valid date is written as four digits, '-', two digits, '-', two digits |
| `Dates.ParseFormat` | internal/domain/dto/customer.go:44 | parsing a formatted date gives the same date |
| `Dates.FormatParse` | internal/domain/dto/customer.go:44 | a string that parses is the formatted spelling of its date: no other spelling is accepted |
| `Dates.ParseDateCharacterized` | internal/domain/dto/customer.go:44-47 | parsing succeeds exactly on the canonical spelling of some valid date and returns that date |
| `Models.NotFoundIsRootCause` | internal/http/v1/customer/handler.go:74 | `IsNotFound` (errors.Is with the not-found sentinel, looking through every wrap) holds exactly when the root of the wrap chain is the sentinel |
| `Dto.ClockReadsInstants` | internal/domain/dto/customer.go:49-56 | with the birthday at midnight UTC, the future check on dates is `birthday.After(now)` and the too-old check is `birthday.Before(minDate)` on instants |
| `Dto.CreateMessagesDistinct` | internal/domain/dto/customer.go:18-60 | two create error texts are equal exactly when they name the same rule |
| `Dto.UpdateMessagesDistinct` | internal/domain/dto/customer.go:75-118 | two update error texts are equal exactly when they name the same rule |
| `Dto.GenderIgnoresCase` | internal/domain/dto/customer.go:34-37 | upper- or lower-casing a gender never changes whether it is accepted |
| `Dto.NameCheck` | internal/domain/dto/customer.go:19-30 | a name is refused as required exactly when blank, as too long exactly when not blank and over 100 UTF-8 bytes, and passes exactly when neither holds |
| `Dto.GenderCheck` | internal/domain/dto/customer.go:31-37 | a gender is refused as required exactly when blank, as invalid exactly when not blank and not "male"/"female" after trimming and lower-casing, and passes otherwise |
| `Dto.BirthdayCheck` | internal/domain/dto/customer.go:44-56 | a birthday is refused for format exactly when the trimmed text does not parse, as future exactly when it is after today, as too old exactly when it is before the oldest allowed instant, and passes exactly when it parses into the window |
| `Dto.IdentityCheck` | internal/domain/dto/customer.go:19-37 | the name and gender stage passes exactly when both names are valid and the gender is accepted |
| `Dto.RemainingCheck` | internal/domain/dto/customer.go:41-59 | the birthday and user_id stage passes only when the birthday parses into the window |
| `Dto.ValidateCreate` | internal/domain/dto/customer.go:18-61 | a pass means names, gender and birthday are all valid; only the timezone can change, and it becomes "UTC" exactly when it was "" and names and gender passed, even if a later check fails |
| `Dto.ValidateUpdate` | internal/domain/dto/customer.go:75-118 | it never reports a birthday-required or user_id rule; a payload with no name, gender or birthday field always passes; a pass with a birthday means it parses into the window |
| `Dto.IdentityReportsBroken` | internal/domain/dto/customer.go:19-37 | the rule the name and gender stage reports is broken by the payload |
| `Dto.IdentityReportsFirstBroken` | internal/domain/dto/customer.go:19-37 | the name and gender stage breaks no earlier rule than the one it reports, and breaks none when it passes |
| `Dto.RemainingReportsBroken` | internal/domain/dto/customer.go:41-59 | the rule the birthday and user_id stage reports is broken by the payload |
| `Dto.RemainingReportsFirstBroken` | internal/domain/dto/customer.go:41-59 | the birthday and user_id stage breaks no earlier rule than the one it reports, and breaks none when it passes |
| `Dto.CreateReportsFirstBroken` | internal/domain/dto/customer.go:18-61 | create validation passes exactly when the payload breaks no rule; otherwise it reports a broken rule and no rule earlier in the order first_name, last_name, gender, birthday, user_id is broken |
| `Dto.OnlyBrokenRuleReported` | internal/domain/dto/customer.go:18-61 | when a rule is broken and no earlier one is, create validation reports that rule |
| `Dto.UpdateReportsBroken` | internal/domain/dto/customer.go:75-118 | the rule update validation reports is broken by a field that is present |
| `Dto.UpdateEarlierRulesHold` | internal/domain/dto/customer.go:75-118 | no present field breaks a rule earlier than the one update validation reports, nor any rule when it passes |
| `Dto.UpdateReportsFirstBroken` | internal/domain/dto/customer.go:75-118 | update validation passes exactly when no present field breaks a rule; otherwise it reports the first broken rule |
| `Dto.BirthdayStageReached` | internal/domain/dto/customer.go:38-59 | once names and gender pass, create validation reports what the birthday and user_id checks report, whatever the timezone |
| `Dto.FutureBirthdayRejected` | internal/domain/dto/customer.go:49-51 | a well-formed birthday after today is refused as in the future, whatever the user_id |
| `Dto.TwoHundredYearsBackRejected` | internal/domain/dto/customer.go:53-56 | a well-formed birthday 200 years back is refused as too old when the oldest allowed date is 150 years back |
| `Dto.ParseCreateBirthday` | internal/domain/dto/customer.go:63-65 | it returns the date the trimmed birthday spells, or the parse error when the trimmed text spells no date |
| `Dto.ParseUpdateBirthday` | internal/domain/dto/customer.go:119-130 | an absent birthday gives no date and no error; a present one gives the date its trimmed text spells, or the parse error when it spells none |
| `Repository.Create` | internal/storage/repository/customer/customer.go:24-47 | it succeeds exactly when the statement runs and the id is new; the row then holds the record with the table's created_at; a failure leaves the table unchanged and is never not-found; rows stay keyed by id |
| `Repository.GetById` | internal/storage/repository/customer/customer.go:49-69 | it returns the stored row exactly when the id is present and the select runs; the error is not-found exactly when the select ran and no row has that id |
| `Repository.FirstOfUser` | internal/storage/repository/customer/customer.go:80-81 | the row found has the requested user_id and is one of the scanned rows; nothing is found exactly when no scanned row has that user_id |
| `Repository.GetByUserId` | internal/storage/repository/customer/customer.go:71-91 | it returns a stored row with that user_id exactly when one exists and the select runs; the error is not-found exactly when the select ran and no row has that user_id |
| `Repository.ScanLength` | internal/service/customer/customer.go:18 | a listing that holds each id once has as many entries as the table has rows |
| `Repository.GetAll` | internal/service/customer/customer.go:18 | when the select runs, the listing has one entry per row and holds exactly the stored rows; a failure is never not-found |
| `Repository.Update` | internal/storage/repository/customer/customer.go:93-125 | on a present id it rewrites first_name, last_name, gender, timezone and birthday and keeps id, user_id and created_at; success needs a healthy driver and a present id; not-found is reported exactly for an absent id with a healthy driver; no other row changes and the key set is kept |
| `Repository.Delete` | internal/storage/repository/customer/customer.go:127-147 | once the statement runs, the row is gone; success needs a healthy driver and a present id; not-found is reported exactly for an absent id with a healthy driver; an absent id leaves the table unchanged |
| `Repository.DeleteUndoesCreate` | internal/storage/repository/customer/customer.go:127-147 | deleting the row a successful insert just added gives back the table from before the insert |
| `Repository.UpdateThenGet` | internal/storage/repository/customer/customer.go:93-125 | a read after a successful update returns the old row with exactly the five written columns replaced |
| `Service.Insert` | internal/service/customer/customer.go:50-73 | the record built copies the names and gender verbatim and takes the timezone, the parsed birthday, the user id and the fresh id; on success it is exactly what was inserted, with a zero created_at; a failed insert leaves the table unchanged |
| `Service.CreateCustomer` | internal/service/customer/customer.go:34-74 | it succeeds exactly when validation passes, user_id parses, the fresh id is new and the insert runs; the result is built from the payload with the timezone defaulted; every failure leaves the table unchanged |
| `Service.CreateNeverNotFound` | internal/service/customer/customer.go:34-74 | no error from create is ever a not-found error |
| `Service.CreateReportsViolation` | internal/service/customer/customer.go:39-42 | a payload that fails validation is refused with the first rule it broke, wrapped with the operation name |
| `Service.CreateReportsBadUserId` | internal/service/customer/customer.go:44-48 | a valid payload whose user_id is not a UUID is refused with the UUID syntax error, wrapped as an invalid user_id |
| `Service.GetCustomer` | internal/service/customer/customer.go:76-88 | it returns the stored row exactly when the id is present and the read runs; its error is not-found exactly when the id is absent and the select runs |
| `Service.GetAllCustomers` | internal/service/customer/customer.go:90-104 | when the read runs, it returns every stored row once and nothing else; a failure is never not-found |
| `Service.Merge` | internal/service/customer/customer.go:122-141 | the merged record takes exactly the supplied fields, a supplied birthday being parsed; id, user_id, created_at and every absent field keep their fetched values |
| `Service.Rewrite` | internal/service/customer/customer.go:143-150 | the write succeeds exactly with a healthy driver, and the merged record is then stored and returned; only row `id` can change, and only to the merged record |
| `Service.UpdateCustomer` | internal/service/customer/customer.go:106-151 | a validation failure returns that rule and touches nothing; a failed fetch writes nothing; it succeeds exactly when validation passes, the id is present and both statements run; not-found is reported exactly when the id is absent and the select runs; only row `id` can change, even on error |
| `Service.CreateKeepsProfilesValid` | internal/service/customer/customer.go:34-74 | if every stored record is valid before create, every stored record is valid after it |
| `Service.MergedStaysValid` | internal/service/customer/customer.go:122-141 | applying a payload that passed update validation to a valid record gives a valid record |
| `Service.UpdateKeepsProfilesValid` | internal/service/customer/customer.go:106-151 | if every stored record is valid before update, every stored record is valid after it, on failure too |
| `Service.CreateThenGet` | internal/service/customer/customer.go:66-73 | a created customer reads back as returned, except that created_at holds the database default |
| `Service.CreateKeepsRowsKeyed` | internal/service/customer/customer.go:56-69 | create keeps every row stored under its own id |
| `Service.UpdateKeepsRowsKeyed` | internal/service/customer/customer.go:116-146 | update keeps every row stored under its own id |
| `Service.UpdateOfUnknownIdCreatesNothing` | internal/service/customer/customer.go:116-120 | updating an id that is not stored fails and leaves the table unchanged |
| `Handler.ErrorStatus` | internal/http/v1/customer/handler.go:73-80 | a failed get or update is 404 exactly for the not-found error and 500 for every other error |
| `Handler.CreateCustomer` | internal/http/v1/customer/handler.go:37-57 | an undecodable body is 400 and the service is not called; 201 exactly when the service creates, with the service's record (zero created_at) as the body; 500 for every service error, a failed validation included; the table is the one the service left |
| `Handler.GetCustomer` | internal/http/v1/customer/handler.go:59-84 | a malformed id is 400 and the service is not called; 200 with the stored row exactly when it exists and the read runs; 404 exactly when it is absent and the read runs; 500 exactly when the read fails; the table is unchanged |
| `Handler.GetAllCustomers` | internal/http/v1/customer/handler.go:86-99 | 200 with all stored rows exactly when the read runs, otherwise 500; the table is unchanged |
| `Handler.UpdateCustomer` | internal/http/v1/customer/handler.go:101-133 | the id is checked before the body, and each failure is 400 and leaves the table alone; 200 exactly when the service update succeeds, with the service's record as the body; 404 exactly when validation passes, the id is absent and the select runs; a failed validation is 500; the table is the one the service left |

## Left out

- JSON decoding and encoding are not modelled. A body that does not decode is `None`, and the payload written back is a datatype.
- SQL text, the `sqlx` mapping and connection handling are not modelled. A statement's failure is the `Driver` input, and so is a failure to read the affected-row count.
- `uuid.Parse` and `uuid.New` are parameters. So is the `created_at` default of the table.
- `time.Now()` and `AddDate(-150, 0, 0)` are not computed: `now` and `minDate` are inputs (`Dto.ClockAt`). The validators keep the UTC date of now, the UTC date of `minDate`, and whether `minDate` lies past midnight. The two `time.Now()` calls in one validation are taken to give the same date.
- Go's `strings.ToLower` is modelled on ASCII letters only. This is exact for the gender check: apart from ASCII, the only runes that lower-case to an ASCII letter are the Kelvin sign (to `k`) and the dotted capital I (to `i`), and neither letter occurs in "male" or "female".
- The error texts of the validators are kept as the rule they name (`Invalid(rule)`); `Dto.CreateMessage` and `Dto.UpdateMessage` give the exact strings. The texts of driver errors are opaque strings.
- The repository file defines no `GetAll`, although the service interface needs one. `Repository.GetAll` models it as a listing of every row in the order the database returns them, given as the `scan` input.
- `GetByUserID` reads the first row the database returns with that user_id. The scan order is an input, and the model promises only that the row has that user_id.
- The table schema is not part of this model. The id is taken to be the primary key, so inserting an existing id fails with `DuplicateKey`. No other constraint, such as uniqueness of user_id, is modelled.
- Concurrency is not modelled: each request runs alone, so the read-modify-write race in update is out of scope. Logging, configuration, routing, application start-up and the database connection are not part of this model.
- The second birthday parse in `Service.CreateCustomer` and `Service.UpdateCustomer` (service/customer.go:50-54 and 134-139) cannot fail after validation has parsed the same text, so its error branch is proved unreachable.
- Text.IsSpace: a plain definition of Go's `unicode.IsSpace` (the White_Space runes), used by `Text.TrimSpace`; it has no contract of its own.
- Dates.IsLeapYear: a plain definition of Go's Gregorian `isLeap`; its meaning is stated through `Dates.DaysIn`.
- Dto.InFuture and Dto.TooOld: plain definitions on dates; `Dto.ClockReadsInstants` states that they are the instant comparisons of the code.

Behaviour of the code worth knowing:

- Create validation errors yield 500: the create handler maps every service error to 500. Update validation errors also yield 500, because only the not-found error becomes 404.
- Name length is limited to 100 bytes of UTF-8, because Go's `len` counts bytes.
- The default timezone is applied only to an exactly empty timezone; a timezone of spaces is kept. It is applied before the birthday and user_id checks, so it stays even when they fail.
- The record `CreateCustomer` returns has a zero `CreatedAt`: the service builds it without one, and only the stored row gets the database default.
- Update validation has no blank-birthday rule: a present birthday of only spaces is refused for its format.
- White space for trimming is Go's full `unicode.IsSpace` set.
