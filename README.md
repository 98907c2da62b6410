# TimeTracker core in Dafny

This project models a kiosk timekeeping service, a NestJS application backed by a Prisma database.
A property runs a shared device. The device is unlocked by an emailed magic link. Employees clock in
and out on it with a 4-digit passcode. Administrators manage employees and read an hours report.
Two maintenance scripts onboard a property and backfill module entitlements.

The Prisma database is modelled as one `Db.Store` object. Each table is a `seq` field of records.
A service operation that writes to the database is a method with a `modifies` frame naming the
tables it changes. A read-only decision is a function over table snapshots. Instants are integer
milliseconds. The current time, fresh ids and tokens, salts, the key-derivation function and date
parsing are all parameters.

Modules, one per source file (plus shared helpers):

- `Wrappers`: `Option` and `Result`.
- `JsStrings`: JavaScript's `trim`, `split`, `toLowerCase`, `toUpperCase` and truthiness of an optional string.
- `Db`: the record types, the `Store` and Prisma's `findFirst`.
- `ModuleKeys`: the six module keys, `normalizeModuleKeys` and `ensureBaseModules`.
- `Passcode`: the passcode format, the `salt:digest` hash format and `verifyPasscode`.
- `ClockLogs`: filtering, latest-by-timestamp and sorting of clock logs.
- `ClockService` and `ClockController`: the IN/OUT toggle and the token extraction of the clock route.
- `AdminAuth`: the admin gate `requireAdmin`.
- `AuthService`: magic-link creation, `verifyToken` and `checkVerification`.
- `MagicLinkEmail`: `escapeHtml` and the label, subject and text of the magic-link email.
- `EmployeesService` and `EmployeesController`: employee create/update and request-body normalization.
- `Reports`: the hours aggregator and the per-employee report.
- `OnboardProperty`: the onboarding script's prompt loop, validators and module-selection parser.
- `BackfillModuleAccess`: the backfill script that grants missing modules to properties and their admins. Its lemmas hold for any wanted key list. The script's methods use `ensureBaseModules(ALL_MODULE_KEYS)`, which `DesiredFacts` pins down.

## Model

| member | source | states |
|---|---|---|
| Db.FindFirst | src/clock/clock.service.ts:9-14 | Prisma `findFirst`: a found row is in the table and matches the filter; nothing is found iff no row matches |
| Db.FindFirstIsFirst | src/clock/clock.service.ts:9-14 | the row found is the first matching row in table order |
| JsStrings.TrimFacts | src/employees/employees.controller.ts:35-37 | `trim()` keeps a slice of the input with only whitespace outside it, and the slice neither starts nor ends with whitespace |
| JsStrings.TrimEmptyIffBlank | src/employees/employees.controller.ts:35-44 | trimming gives "" iff the string is all whitespace |
| JsStrings.TrimIdempotent | src/employees/employees.controller.ts:35-37 | trimming twice equals trimming once |
| JsStrings.Split | src/common/passcode.util.ts:20 | the parts contain no separator and joining them with it gives back the input |
| JsStrings.ToLower | src/employees/employees.controller.ts:52-53 | the result has the same length and maps each character through ASCII lower-casing |
| ModuleKeys.AlphabetFacts | src/constants/modules.ts:1-15 | there are six distinct keys with `employee-dashboard` first; `isModuleKey(v)` holds iff v is a string equal to one of them |
| ModuleKeys.NormalizedFacts | src/constants/modules.ts:17-26 | `normalizeModuleKeys` of null is empty; the output holds only valid keys, has no duplicates, and contains exactly the valid keys of the input |
| ModuleKeys.NormalizedInFirstOccurrenceOrder | src/constants/modules.ts:20-25 | output keys appear in the order of their first occurrence in the input |
| ModuleKeys.MergedIsNormalizedWithBase | src/constants/modules.ts:28-36 | `ensureBaseModules(m)` equals normalizing the base key followed by m |
| ModuleKeys.MergedFacts | src/constants/modules.ts:28-36 | the result starts with the base key, has no duplicates, and holds exactly the base key plus the valid keys of the input |
| ModuleKeys.MergedOfDistinct | src/constants/modules.ts:28-36 | a duplicate-free valid list that already starts with the base key is returned unchanged |
| ModuleKeys.MergedIdempotent | src/constants/modules.ts:28-36 | `ensureBaseModules` is idempotent |
| ModuleKeys.MergedAllIsAll | src/constants/modules.ts:1-8 | `ensureBaseModules(ALL_MODULE_KEYS)` is `ALL_MODULE_KEYS` |
| ModuleKeys.NormalizeModuleKeys | src/constants/modules.ts:17-26 | the loop with its seen-set computes the normalized list: valid, duplicate-free, exactly the valid input keys |
| ModuleKeys.EnsureBaseModules | src/constants/modules.ts:28-36 | the loop computes the merged list: base key first, no duplicates, exactly base plus valid input keys |
| Passcode.ValidatePasscodeIff | src/common/passcode.util.ts:3-6 | a passcode is valid iff it has length 4 and every character is a decimal digit |
| Passcode.HexRoundTrip | src/common/passcode.util.ts:9-11 | decoding the hex encoding of a byte string gives it back |
| Passcode.HashFormat | src/common/passcode.util.ts:4-14 | a hash is 32 hex characters, a colon, then 128 hex characters, and is never a legacy value |
| Passcode.HashThenVerify | src/common/passcode.util.ts:8-27 | a passcode verifies against its own hash for every deterministic KDF |
| Passcode.HashRejectsOther | src/common/passcode.util.ts:16-27 | a passcode whose derived key differs does not verify against the hash |
| Passcode.LegacyIsPlainEquality | src/common/passcode.util.ts:14-19 | a stored value without a colon verifies iff it equals the passcode |
| Passcode.MalformedVerifiesFalse | src/common/passcode.util.ts:20-21 | an empty salt or digest verifies false; text after a second colon is dropped by `split(':', 2)` |
| Passcode.DigestLengthMismatchFalse | src/common/passcode.util.ts:22-27 | a digest whose byte length differs from the derived key verifies false rather than failing |
| ClockLogs.Filter | src/clock/clock.service.ts:25-28 | the result holds exactly the kept rows, each no more often than in the table |
| ClockLogs.FilterCounts | src/clock/clock.service.ts:25-28 | a kept row occurs in the result exactly as often as in the table, any other row not at all |
| ClockLogs.Latest | src/clock/clock.service.ts:25-28 | there is no latest log iff there are no logs; otherwise it is a log with the greatest timestamp |
| ClockLogs.SortByTime | src/reports/reports.service.ts:43-46 | the result is sorted by timestamp and is a permutation of the input |
| ClockLogs.FilterAppend | src/clock/clock.service.ts:25-28 | filtering a table with one more row adds that row iff it is kept |
| ClockLogs.LatestOfAppend | src/clock/clock.service.ts:25-37 | a row appended with the greatest timestamp becomes the latest |
| ClockService.VerifiedLink | src/clock/clock.service.ts:9-14 | a verified link of the device is found iff one exists |
| ClockService.EmployeeByPasscode | src/clock/clock.service.ts:16-23 | an employee of the link's property with that plaintext passcode is found iff one exists |
| ClockService.NextTypeMeaning | src/clock/clock.service.ts:25-30 | the next type is IN with no history, and otherwise the opposite of the latest log's type |
| ClockService.ToggleAlternates | src/clock/clock.service.ts:30-37 | after one clock action (at a time not before the employee's logs) the next type flips |
| ClockService.ToggleLeavesOthers | src/clock/clock.service.ts:32-37 | another employee's logs and next type are unchanged |
| ClockService.ToggleEachAlternates | src/clock/clock.service.ts:30 | successive clock actions at ascending times append IN, OUT, IN, ... for a new employee |
| ClockService.Clock | src/clock/clock.service.ts:8-40 | null iff there is no verified link or no matching employee, with the log table unchanged; otherwise exactly one log of the next type is appended and its type is returned |
| ClockController.ExtractToken | src/clock/clock.controller.ts:11 | a truthy cookie is the token; else a `Bearer ` header gives the text after it; else there is no token |
| ClockController.BearerRoundTrip | src/clock/clock.controller.ts:19 | without a cookie, a Bearer header built from a token extracts that token |
| ClockController.EmptyCookieFallsThrough | src/clock/clock.controller.ts:11 | an empty cookie is treated as no cookie |
| ClockController.Route | src/clock/clock.controller.ts:9-24 | the route fails Unauthorized iff the service returns nothing, and otherwise returns the service's result |
| AdminAuth.RequireAdmin | src/common/admin-auth.service.ts:8-25 | a missing device token, then a missing admin token, is Unauthorized before any lookup; every failure is Unauthorized; success returns the property and employee id |
| AdminAuth.RequireAdminIff | src/common/admin-auth.service.ts:13-24 | success iff the first live device session and the first live admin session share a property and their employee exists and is an admin |
| AdminAuth.CrossPropertyRejected | src/common/admin-auth.service.ts:19 | two live sessions of different properties are rejected |
| AdminAuth.ExpiryIsExclusive | src/common/admin-auth.service.ts:14-18 | a device session expiring exactly now is not live |
| AuthService.NewLink | src/auth/auth.service.ts:13-17 | a new link expires 15 minutes after creation and is unverified |
| AuthService.SendMagicLink | src/auth/auth.service.ts:11-29 | exactly one link with the given email, device and a fresh token is appended; token uniqueness is kept |
| AuthService.VerifyOutcome | src/auth/auth.service.ts:32-36 | true iff the first link with the token exists and has `now <= expiresAt` |
| AuthService.MarkVerified | src/auth/auth.service.ts:37-40 | only links with that token become verified; every other field and link stays |
| AuthService.VerifyToken | src/auth/auth.service.ts:31-43 | returns the outcome, and the link table changes only on success |
| AuthService.UnknownTokenRefused | src/auth/auth.service.ts:32-35 | an unknown token returns false and changes nothing |
| AuthService.ExpiryBoundary | src/auth/auth.service.ts:33 | the link verifies iff `now <= expiresAt`; at equality it still verifies |
| AuthService.VerifyMarksOnlyThatLink | src/auth/auth.service.ts:37-40 | a successful verify sets that link's flag and leaves the others |
| AuthService.VerifyIdempotent | src/auth/auth.service.ts:37-42 | verifying again succeeds and leaves the store the same |
| AuthService.NewestLink | src/auth/auth.service.ts:46-49 | the device's link with the greatest createdAt; none iff the device has no link |
| AuthService.CheckVerification | src/auth/auth.service.ts:45-54 | false when the device has no link; true only when some link of the device is verified |
| AuthService.CheckReportsNewest | src/auth/auth.service.ts:46-53 | the result is the verified flag of the device's newest link |
| AuthService.SendVerifyCheck | src/auth/auth.service.ts:11-54 | sending a link, verifying its token within 15 minutes, then checking the device reports verified |
| MagicLinkEmail.ReplaceAllAppend | src/auth/templates/magic-link-email.ts:9-13 | a global replace distributes over concatenation |
| MagicLinkEmail.EscapeHtmlAppend | src/auth/templates/magic-link-email.ts:7-13 | escaping distributes over concatenation |
| MagicLinkEmail.EscapeHtmlIsPerChar | src/auth/templates/magic-link-email.ts:7-13 | the five chained replacements, `&` first, equal escaping each character on its own |
| MagicLinkEmail.EscapeHtmlSafe | src/auth/templates/magic-link-email.ts:7-13 | the output contains none of `<`, `>`, `"`, `'` |
| MagicLinkEmail.EscapeHtmlIdentity | src/auth/templates/magic-link-email.ts:7-13 | a string without special characters is unchanged |
| MagicLinkEmail.EscapeHtmlRoundTrip | src/auth/templates/magic-link-email.ts:9-13 | decoding the five entities recovers the original string |
| MagicLinkEmail.TextLabel | src/auth/templates/magic-link-email.ts:20-26 | the trimmed property name when it is not blank, else `Property ID ` followed by the code |
| MagicLinkEmail.HtmlLabelIsEscapedText | src/auth/templates/magic-link-email.ts:21-25 | the HTML label is the escaped text label |
| MagicLinkEmail.HtmlSlotsAsWritten | src/auth/templates/magic-link-email.ts:27-68 | the HTML slots as the template fills them, with the raw subject in the title |
| MagicLinkEmail.TitleCarriesRawMarkup | src/auth/templates/magic-link-email.ts:34 | a property name `<b>` puts a `<` into the title |
| MagicLinkEmail.KioskSlotSafe | src/auth/templates/magic-link-email.ts:45 | the kiosk line carries no markup characters |
| MagicLinkEmail.BadgeSlotSafe | src/auth/templates/magic-link-email.ts:52 | the badge carries no markup characters |
| MagicLinkEmail.EscapedSlotsHaveNoMarkup | src/auth/templates/magic-link-email.ts:21-68 | every slot of the corrected HTML carries no markup characters |
| MagicLinkEmail.BuildMagicLinkEmail | src/auth/templates/magic-link-email.ts:15-82 | the subject is the text label plus ` • TimeTracker magic link`; the HTML slots are the template's as written, so the title is the raw subject; the footer, badge and link slots hold the escaped label, code and link |
| MagicLinkEmail.TextCarriesRawCodeAndLink | src/auth/templates/magic-link-email.ts:79 | the plain text is the heading, the raw text label, then the unescaped code and link after their lead-ins, then the notice, each at its fixed offset |
| EmployeesService.EnsureUniquePasscode | src/employees/employees.service.ts:9-22 | fails with "passcode in use" iff some employee of the property, other than the excluded one, verifies the passcode |
| EmployeesService.CreateForProperty | src/employees/employees.service.ts:42-116 | rejects a bad format and then a clash without writing; otherwise appends one employee with the defaults and one pay-history row with the same pay |
| EmployeesService.CreateDefaults | src/employees/employees.service.ts:61-75 | payType `hourly`, status `active`, not admin, empty email and phone become null, and the passcode is stored hashed |
| EmployeesService.CreatedPasscodeClashes | src/employees/employees.service.ts:9-22 | a second create with the same passcode in the property clashes with the first |
| EmployeesService.BuildUpdate | src/employees/employees.service.ts:142-180 | the patch applied to the row gives the updated row; the pay-change flag and next pay values match it; the patch is empty iff nothing is given |
| EmployeesService.ProfileFields | src/employees/employees.service.ts:142-157 | names and status keep the old value unless given, falsy email/phone become null, and a patch field is set iff its input is present |
| EmployeesService.NameEntry | src/employees/employees.service.ts:142-143 | a name entry is present iff the key is sent, and yields the given name or, for `null`, the stored one |
| EmployeesService.ContactEntry | src/employees/employees.service.ts:144-145 | an email or phone entry is present iff the key is sent, and clears the field for `null` or "" |
| EmployeesService.StatusEntry | src/employees/employees.service.ts:146 | a status entry is present iff the key is sent, and only a non-empty value replaces the stored status |
| EmployeesService.PayFields | src/employees/employees.service.ts:158-180 | payType and amount are set when given, and the change flags hold iff a value really differs |
| EmployeesService.IndexOfEmployee | src/employees/employees.service.ts:132-138 | the employee is found iff the id exists in that property |
| EmployeesService.UpdateForProperty | src/employees/employees.service.ts:118-229 | errors in order (not found, empty or invalid passcode, clash) write nothing; otherwise the row is replaced by the updated row and one pay-history row is appended iff pay changed |
| EmployeesService.PayChangedIff | src/employees/employees.service.ts:158-180 | pay changed iff the resulting payType or amount differs from the stored one |
| EmployeesService.SamePayNoHistory | src/employees/employees.service.ts:158-198 | resubmitting the stored pay values appends no history |
| EmployeesService.EmptyUpdateKeepsRow | src/employees/employees.service.ts:183-188 | an empty update leaves the row unchanged and records no pay change |
| EmployeesService.UpdateFieldRules | src/employees/employees.service.ts:142-167 | falsy email/phone clear the field, a falsy status keeps the old one, and absent fields keep their value |
| EmployeesService.ResubmitOwnPasscode | src/employees/employees.service.ts:148-157 | an employee resubmitting a passcode only they hold is not a clash |
| EmployeesController.TrimmedOrNull | src/employees/employees.controller.ts:50-51 | null iff absent or blank, otherwise the trimmed value |
| EmployeesController.LoweredOrNull | src/employees/employees.controller.ts:52-53 | null iff absent or blank, otherwise the trimmed lower-cased value |
| EmployeesController.NormalizeCreate | src/employees/employees.controller.ts:18-57 | fails iff a trimmed first name, last name or passcode is empty, with the source's message order; otherwise carries the trimmed and normalized fields |
| EmployeesController.Whitelisted | src/employees/employees.controller.ts:85-90 | a non-empty value outside the allowed list is dropped; an allowed or empty value is kept |
| EmployeesController.TrimmedField | src/employees/employees.controller.ts:76-79 | an absent field stays absent; a present one is trimmed |
| EmployeesController.NormalizeUpdate | src/employees/employees.controller.ts:76-97 | fails iff a present first or last name trims to empty (first name checked first); otherwise carries the trimmed and whitelisted fields |
| EmployeesController.ListRoute | src/employees/employees.controller.ts:10-16 | the admin gate runs first; on success the property's employees are listed |
| EmployeesController.ListForProperty | src/employees/employees.service.ts:24-40 | exactly the employees of the property |
| EmployeesController.CreateRoute | src/employees/employees.controller.ts:18-57 | gate errors first, then normalization errors; after both pass, `Ok` exactly when the passcode has 4 digits and does not clash in the gate's property, with the format and in-use errors otherwise; an `Ok` appends the new employee and its first pay row, and any error writes nothing |
| EmployeesController.UpdateRoute | src/employees/employees.controller.ts:59-100 | the admin gate, then normalization, then update; a failure at any step writes nothing |
| EmployeesController.UpdateRouteKeeps | src/employees/employees.controller.ts:76-99 | fields the body leaves out keep their stored values |
| EmployeesController.BlankPayTypeStoredEmpty | src/employees/employees.controller.ts:81-87 | a payType of `" "` passes the whitelist as "" and is stored as an empty payType, counting as a pay change |
| Reports.ClampDate | src/reports/reports.service.ts:26-28 | in a non-empty window the result lies in it; an instant already inside is unchanged |
| Reports.Entries | src/reports/reports.service.ts:72-76 | one entry per log, in order, with its id, type and timestamp |
| Reports.LastBefore | src/reports/reports.service.ts:38-42 | the employee's latest log strictly before start, or none when there is none |
| Reports.InWindow | src/reports/reports.service.ts:43-47 | the employee's logs within the window, ascending, each exactly as often as in the table (a permutation of the matching rows) |
| Reports.WalkLogsAppend | src/reports/reports.service.ts:56-66 | walking a + b equals walking b from the state after a |
| Reports.WalkStaysBounded | src/reports/reports.service.ts:52-66 | during the walk the total plus the open interval never exceeds the elapsed part of the window |
| Reports.TotalMsBounded | src/reports/reports.service.ts:43-70 | for ascending logs the total is at least 0 and at most `end - start`, and 0 for a degenerate window |
| Reports.CarryOverOnly | src/reports/reports.service.ts:52-54 | with no in-window logs the total is the whole window when the last earlier log is IN, and 0 when it is OUT or absent |
| Reports.RepeatedInIgnored | src/reports/reports.service.ts:58-59 | an IN while an interval is open does not change the total |
| Reports.UnmatchedOutIgnored | src/reports/reports.service.ts:60-66 | an OUT with nothing open does not change the total |
| Reports.OutClosesInterval | src/reports/reports.service.ts:60-64 | an OUT adds its clamped time minus the open instant and closes the interval |
| Reports.SevenHourDay | src/reports/reports.service.ts:56-70 | IN 9:00, OUT 12:00, IN 13:00 with no later OUT, reported up to 17:00, total seven hours: the open interval is closed at the window's end |
| Reports.WalkWindow | src/reports/reports.service.ts:49-70 | the loop over `openIn` and `totalMs` computes the fold's total |
| Reports.CalculateHoursAndLogsInRange | src/reports/reports.service.ts:30-82 | a degenerate window gives 0 and no entries; otherwise the fold over the in-window logs and their entries; the total is bounded by the window |
| Reports.EmployeesOf | src/reports/reports.service.ts:90-102 | exactly the employees of the property |
| Reports.EmployeesWithHours | src/reports/reports.service.ts:84-120 | missing start/end, then an unparseable date, is BadRequest; the result is Ok iff both dates are present and parse, and then holds one summary per employee with its fields, worked milliseconds and in-window entries |
| OnboardProperty.ToNullable | scripts/onboardProperty.ts:45-48 | null iff blank, otherwise the trimmed string |
| OnboardProperty.ToNullableIdempotent | scripts/onboardProperty.ts:45-48 | applying it to its own result changes nothing |
| OnboardProperty.AcceptedCodeIsTrimmed | scripts/onboardProperty.ts:57-60 | an accepted property code has no surrounding whitespace and survives `toNullable` unchanged |
| OnboardProperty.CodeRejectedIff | scripts/onboardProperty.ts:57-60 | a code is rejected with the whitespace message iff it contains whitespace |
| OnboardProperty.HasAtBetweenIff | scripts/onboardProperty.ts:72-73 | the scan finds an `@` with a non-newline character on each side iff one exists |
| OnboardProperty.EmailPatternIff | scripts/onboardProperty.ts:72-73 | the scan agrees with the regular expression `/.+@.+/` |
| OnboardProperty.EmailValidatorsIff | scripts/onboardProperty.ts:72-76 | an email is accepted iff it matches; a billing email also accepts "" |
| OnboardProperty.Utf16Length | scripts/onboardProperty.ts:119-120 | JavaScript `length` counts UTF-16 code units, at least one per character |
| OnboardProperty.Utf16LengthOfBmp | scripts/onboardProperty.ts:119-120 | for characters of the Basic Multilingual Plane it equals the character count |
| OnboardProperty.PasscodeValidatorAccepts | scripts/onboardProperty.ts:119-120 | at least four characters are accepted, hence any 4-digit passcode |
| OnboardProperty.PasscodeValidatorRejectsShort | scripts/onboardProperty.ts:119-120 | a UTF-16 length under four is refused with the length message |
| OnboardProperty.PropertyTypeOf | scripts/onboardProperty.ts:102-104 | no type iff the trimmed answer is empty |
| OnboardProperty.AcceptedPropertyTypeIsOption | scripts/onboardProperty.ts:94-104 | an accepted property type is one of the enum values |
| OnboardProperty.UnknownPropertyTypeRejected | scripts/onboardProperty.ts:94-99 | a non-blank answer outside the enum is rejected with the list of choices |
| OnboardProperty.Turn | scripts/onboardProperty.ts:26-39 | an answer is accepted iff it is not required-but-blank and not rejected by the validator; the message says which |
| OnboardProperty.BlankAnswerTakesDefault | scripts/onboardProperty.ts:26-31 | a blank answer takes the default; a required field with a blank default asks again |
| OnboardProperty.FirstAcceptedIsValid | scripts/onboardProperty.ts:18-43 | the value returned passes the required check and the validator |
| OnboardProperty.Prompt | scripts/onboardProperty.ts:18-43 | the loop returns the first accepted answer, after retrying every earlier one |
| OnboardProperty.NonEmptyTrimmed | scripts/onboardProperty.ts:139-145 | the parts are exactly the non-empty trimmed pieces, none of them empty |
| OnboardProperty.ChosenFacts | scripts/onboardProperty.ts:147-155 | the chosen keys have no duplicates and are exactly the keys the parts name |
| OnboardProperty.ResolveParts | scripts/onboardProperty.ts:147-155 | the loop with early return yields the chosen keys iff every part is an option number |
| OnboardProperty.SelectionHasBase | scripts/onboardProperty.ts:134-158 | every selection starts with `employee-dashboard`, is duplicate-free and non-empty |
| OnboardProperty.SelectionFallsBackToAll | scripts/onboardProperty.ts:134-153 | a blank answer, no parts, or any invalid part yields all modules |
| OnboardProperty.SelectionOfValidParts | scripts/onboardProperty.ts:147-157 | a valid selection holds exactly the base key and the keys of the given indices |
| OnboardProperty.SelectModules | scripts/onboardProperty.ts:134-158 | the loop with early return computes the selection |
| BackfillModuleAccess.DesiredFacts | scripts/backfillModuleAccess.ts:7 | the desired list is all six keys, base first, without duplicates |
| BackfillModuleAccess.Missing | scripts/backfillModuleAccess.ts:13-14 | exactly the desired keys not held |
| BackfillModuleAccess.MissingEmptyIff | scripts/backfillModuleAccess.ts:14-16 | nothing is missing iff every desired key is held |
| BackfillModuleAccess.MissingAppend | scripts/backfillModuleAccess.ts:14 | the missing list keeps the desired order |
| BackfillModuleAccess.MissingNoDuplicates | scripts/backfillModuleAccess.ts:14 | the missing list has no duplicates |
| BackfillModuleAccess.PropertyKeysAppend | scripts/backfillModuleAccess.ts:16-21 | inserting rows for a property adds exactly those keys to it |
| BackfillModuleAccess.PropertyBackfillComplete | scripts/backfillModuleAccess.ts:16-21 | afterwards the property holds every desired key |
| BackfillModuleAccess.PropertyBackfillKeepsOthers | scripts/backfillModuleAccess.ts:16-21 | existing rows are a prefix and other properties are unchanged |
| BackfillModuleAccess.PropertyBackfillGrows | scripts/backfillModuleAccess.ts:16-21 | the backfill only appends rows to the table |
| BackfillModuleAccess.PropertyBackfillAddsNoDuplicate | scripts/backfillModuleAccess.ts:16-21 | the inserted rows are new and distinct, so `skipDuplicates` skips nothing |
| BackfillModuleAccess.PropertyBackfillIdempotent | scripts/backfillModuleAccess.ts:14-21 | a second run finds nothing missing and inserts nothing |
| BackfillModuleAccess.BackfillPropertyModules | scripts/backfillModuleAccess.ts:6-24 | returns the missing list and appends rows for it (none when it is empty) |
| BackfillModuleAccess.AdminsOf | scripts/backfillModuleAccess.ts:29-35 | exactly the admins of the property |
| BackfillModuleAccess.EmployeeKeysAppend | scripts/backfillModuleAccess.ts:41-46 | inserting rows for an employee adds exactly those keys to it |
| BackfillModuleAccess.GrantsKeys | scripts/backfillModuleAccess.ts:37-49 | after the grants an admin holds its old keys plus the desired ones; a non-admin keeps its keys |
| BackfillModuleAccess.AdminBackfillComplete | scripts/backfillModuleAccess.ts:37-49 | each admin ends holding every desired key |
| BackfillModuleAccess.AdminBackfillOnlyAdmins | scripts/backfillModuleAccess.ts:29-49 | employees that are not admins of the property gain nothing |
| BackfillModuleAccess.GrantsEmpty | scripts/backfillModuleAccess.ts:39-40 | when every admin already holds every desired key nothing is inserted |
| BackfillModuleAccess.AdminBackfillIdempotent | scripts/backfillModuleAccess.ts:37-49 | a second run grants nothing |
| BackfillModuleAccess.BackfillAdminModules | scripts/backfillModuleAccess.ts:26-52 | the loop appends the grants of every admin and returns the number of admins |
| BackfillModuleAccess.DoneStep | scripts/backfillModuleAccess.ts:54-70 | backfilling one more property keeps every earlier property and its admins complete |
| BackfillModuleAccess.BackfillAllStep | scripts/backfillModuleAccess.ts:54-70 | one turn of the loop only appends to both tables and extends completeness to one more property |
| BackfillModuleAccess.BackfillAllCount | scripts/backfillModuleAccess.ts:60-61 | the keys a turn adds are the property's starting shortfall, or none for a property listed before; unlisted properties keep their starting keys |
| BackfillModuleAccess.BackfillAll | scripts/backfillModuleAccess.ts:54-70 | after the main loop every listed property and each of its admins holds every desired key; existing rows are prefixes; each property's added count is what it lacked at the start (0 when listed again); the admin counts match |

## Left out

- Database I/O: Prisma calls are operations on in-memory tables. Transactions, `Promise.all` and concurrent requests are not modelled. So duplicate rows created by racing requests are out of scope.
- Cryptography and randomness: `scryptSync` is an arbitrary deterministic key-derivation function, and salts, tokens and ids are parameters. `timingSafeEqual` is plain equality, and its constant-time behaviour is not modelled.
- Wall-clock time is a `now` parameter. ISO date parsing is a `string -> Option<int>` parameter of `EmployeesWithHours`.
- The reports' fractional hours (`totalMs / 3600000` and `toFixed(2)`) are floating point. The model keeps the integer `totalMs`.
- Email delivery through Resend is outbound I/O. The HTML body's styling and copy are presentation, so the HTML is modelled as its variable slots (title, label, kiosk line, badge, link, footer).
- The `orderBy` of `listForProperty` (first and last name) and of the report's employee query (name) is not modelled. The contracts state membership, and for the report, the order of the list it was given.
- `toLowerCase`/`toUpperCase` are ASCII-only. Unicode case mapping is not modelled.
- JavaScript `Number()` quirks in the module-selection parser (hex, exponent, decimal point, sign, surrounding whitespace inside a part): a part is accepted only as a string of decimal digits.
- The `PropertyType` enum values are a parameter of the property-type validator.
- `clockWithSession` and `getStatusWithSession` are not defined in the clock service. The clock route takes the service as a function parameter.
- readline, `console` and `main` of the scripts: the prompt loop runs over a finite sequence of answers and yields nothing when they run out.
- The onboarding script's database writes (property, admin employee, module rows; lines 160-216) and its existing-code check are not modelled. `SelectionHasBase` shows that the `length > 0` guards at lines 180 and 208 always pass.
- `MagicLinkEmail.Unescape` is a decoder defined only to state the round trip. The source has no decoder.
- Ties in Prisma `orderBy` with `findFirst` go to the later row (`ClockLogs.Latest`, `AuthService.NewestLink`). Prisma leaves them unspecified.
- Same-timestamp logs in the report window keep table order (`Reports.InWindow` sorts stably). Prisma's `orderBy: { timestamp: 'asc' }` leaves their order unspecified, and the total can depend on it: an IN and an OUT at the same instant add nothing when the IN comes first, but leave an interval open to the window's end when the OUT comes first.
- `EmployeesController.ListForProperty` returns whole employee rows. The source `select`s a projection that leaves out `propertyId`, `name`, `passcode` and `passcodeHash`, so the model does not state which fields the response hides.
- The full employee returned by create/update (with its pay-history list ordered by `effectiveAt`) is not modelled. The model states the stored rows.
- The schema is inconsistent and the model follows the code. The report reads `employee.name`, the clock matches a plaintext `passcode` column while create/update store `passcodeHash`, and magic links are created without a `propertyId` that the clock then reads.
- AuthService.SendMagicLink: requires a token that no existing link holds, standing in for `randomUUID` uniqueness.
- EmployeesService.CreateForProperty: requires an id that no existing employee holds, standing in for database-generated ids. `EmployeesController.CreateRoute` requires the same.
- Passcode.HashFormat: requires a 16-byte salt and a 64-byte derived key, which are the sizes `randomBytes(16)` and `scryptSync(…, 64)` produce.
- BackfillModuleAccess.BackfillAdminModules: computes each admin's missing keys from the module rows read before the loop, as the source's single `findMany` with `include` does.
- Reports.EmployeesWithHours: date parsing is a parameter, so the model does not decide which ISO strings are valid.

## Findings

| source | as written | input that shows it | evidently intended | confidence | as-written member | corrected member |
|---|---|---|---|---|---|---|
| src/auth/templates/magic-link-email.ts:34 | the HTML `<title>` embeds the raw subject, which contains the unescaped property name | propertyName `"<b>"`, code `"X1"`: the title contains `<b>` | escape the subject in the title like every other HTML slot | medium, not executed | MagicLinkEmail.TitleCarriesRawMarkup | MagicLinkEmail.EscapedSlotsHaveNoMarkup |
