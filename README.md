# Registration form core, modelled in Dafny

The application collects a registration record (name, email, US address)
through a form or through an AI chat panel. This project models the
deterministic core behind it, and proves what that core promises:

- **Field helpers** in `lib/utils.ts` (module `FieldHelpers`):
  - digit extraction (`keepDigits`), as a method with a loop proved against the specification function `DigitsOf`;
  - the US phone rules and the phone display format;
  - the integer range guard;
  - the `"YYYY-MM-DD"` branch of `coerceDate`, including the `new Date(y, m - 1, d)` round-trip check, modelled by the `Calendar` module;
  - local ISO date rendering.
- **The zod schema** in `schemas/formSchema.ts` (module `FormSchema`): `FormSchema.safeParse` as one function `Validate`. It returns either the parsed record or every issue, each at its property path. Validate is proved equal to an independent, path-by-path reading of the schema:
  - which paths fail;
  - which message each failing path carries;
  - in which order the issues appear;
  - that the accepted record keeps every field as given, except the trimmed ZIP code.
- **The chat panel's record extractor** in `components/ai-mode.tsx` (module `AiMode`):
  - the regular expression `Updated form data:\s*(\{[\s\S]*?\})` as a scan;
  - what is handed to `JSON.parse`;
  - the trimmed display text left after the leftmost match is removed;
  - the per-message open/closed map of the record viewer.

  The scan (`FindMatch`) is proved to find exactly the leftmost match of a declarative description of the pattern (`IsMatch`, `IsLeftmostMatch`).
- **The route's tool callback** (module `ChatRoute`): a wrapper over `Validate`.

JavaScript built-ins the core relies on are modelled in `Text`:
- `trim` (`Text.Trim`) and the `\s` class (`Text.IsJsWhitespace`), over the ECMAScript white space and line terminator set;
- `split` on one character (`Text.Split`);
- `String(n)` (`Text.IntToString` and `Text.NatToDecimal`);
- `padStart(2, "0")` (`Text.PadStart2`).

The schema is one function per zod building block, composed as the schema composes them: `FormSchema.RequiredString` (`string().min(1, …)`), `EmailString`, `OptionalString`, `AnyString`, `ZipString` (`string().trim().regex(…)`), `ValidateAddress` (`AddressSchema`) and `Validate` (`FormSchema`). Their properties are stated by the lemmas in the table below.

Values received as `unknown` are modelled by `JsValues.Value`:
- undefined;
- a string;
- a plain object;
- a Date, whose field triple is `None` for an Invalid Date;
- anything else.

Operations the core takes from elsewhere are parameters:
- the email check of zod (`isEmail`);
- `JSON.parse` (`parse`, which returns `None` where JSON.parse throws);
- the platform's free-form date parser (`fallback`).

The lazy group stops at the first `}` after the opening brace. So a record holding a nested object, such as a full form record with its `address`, is cut after the inner object: `JSON.parse` receives an unbalanced prefix, and a stray `}` stays in the display text (`AiMode.NestedRecordIsCut`).

Where the code's own descriptive text promises more than the code does, the model follows the code:
- The country is any string. The `describe` text at `schemas/formSchema.ts:34` lists accepted inputs ("United States, US, USA, …"), but the schema is a bare `z.string()`, so nothing is checked or normalised (`FormSchema.CountryIsAnyString`).
- The tool description at `app/api/chat/route.ts:37` says the callback returns the updated form data. Its `execute` returns `undefined` on success and an `{ error }` object otherwise (`ChatRoute.ExecuteValidateFormData`).

Further facts about the code that the model makes explicit:
- Required fields are checked with `min(1)` and are not trimmed, so a name of one space is accepted.
- The display text is always trimmed (`AiMode.DisplayText`), so a message that is not trimmed is never shown unchanged. A trimmed message with no marker is shown unchanged (`AiMode.NoMarkerShownAsIs`).
- Removing the example block from `"Thanks! Updated form data: {"name":"Jane"} more text"` leaves both spaces around it: `"Thanks!  more text"` (`AiMode.ExampleMessageShown`).

## Model

| member | source | states |
|---|---|---|
| Text.TrimSpec | schemas/formSchema.ts:38 | trim's result has no white space at either end and is a slice of the input with only white space cut off both ends |
| Text.TrimIsUnique | schemas/formSchema.ts:38 | any trimmed slice (the empty one for an all-white-space input) obtained by cutting only white space off both ends is the trim |
| Text.TrimOfTrimmed | components/ai-mode.tsx:40 | trim leaves a string without surrounding white space unchanged (trim is idempotent) |
| Text.Split | lib/utils.ts:52 | split yields at least one piece, no piece contains the separator, and joining the pieces with the separator gives the input back |
| Text.SplitJoin | lib/utils.ts:52-53 | splitting the join of separator-free pieces gives the same pieces |
| Text.NatToDecimal | lib/utils.ts:112-113 | String(n) is a non-empty digit string whose decimal value is n, one digit exactly when n < 10 |
| Text.NatToDecimalCanonical | lib/utils.ts:112-114 | String(n) has no leading zero: its first character is '0' only for n = 0 |
| Text.PadStart2 | lib/utils.ts:112-113 | the result of padStart(2, "0") is as long as a string of two or more characters, and two characters long for a shorter one |
| Text.PadStart2Content | lib/utils.ts:112-113 | padStart(2, "0") ends with the input and holds only '0' before it, so a string of two or more characters comes back unchanged |
| Text.TwoDigits | lib/utils.ts:112-113 | padStart(2, "0") of String(n) for n < 100 is two digits reading back as n |
| Calendar.DaysInMonth | lib/utils.ts:68-73 | month lengths: 29 exactly for February of a leap year, 28 for other Februaries, 30 for April, June, September and November |
| Calendar.ConstructLocal | lib/utils.ts:68 | new Date(y, m - 1, d) yields a calendar date no earlier than month m of year y, and strictly later when d exceeds the month's length |
| Calendar.RoundTripIffInMonth | lib/utils.ts:68-76 | the constructed date has fields (y, m, d) exactly when d is a day of month m of year y |
| Calendar.OverflowIsDetected | lib/utils.ts:68-76 | a day past the month's end up to 31 exists only before December; it rolls into day d - DaysInMonth of the next month of the same year, so the round-trip check fails |
| FieldHelpers.KeepDigits | lib/utils.ts:118-126 | the loop returns exactly the in-order subsequence of the input's characters '0'..'9' |
| FieldHelpers.DigitsOfConcat | lib/utils.ts:118-126 | digit extraction distributes over concatenation |
| FieldHelpers.DigitsOfAllDigits | lib/utils.ts:118-126 | digit extraction is the identity on all-digit strings |
| FieldHelpers.DigitsOfIdempotent | lib/utils.ts:118-126 | digit extraction is idempotent |
| FieldHelpers.IsValidUSPhoneDigits | lib/utils.ts:129-133 | valid exactly when there are 10 characters and the first is '2'..'9' |
| FieldHelpers.PhoneValidityIgnoresTail | lib/utils.ts:129-133 | validity depends only on the length and the first character |
| FieldHelpers.SanitizeUSPhone | lib/utils.ts:135-153 | a non-string gives not ok, no digits and the type message; a string gives its digits and ok exactly when they are valid; a message exactly when not ok; ok digits are 10 digits not starting with 0 or 1 |
| FieldHelpers.FormatUSPhone | lib/utils.ts:156-162 | other lengths are returned unchanged; 10 characters give "(AAA) BBB-CCCC", 14 characters whose digit slots hold the input in order |
| FieldHelpers.DigitsOfFormatted | lib/utils.ts:118-126 | digit extraction drops the parentheses, the space and the dash of the phone display format |
| FieldHelpers.FormatThenKeepDigits | lib/utils.ts:156-162 | extracting the digits of a formatted digit string gives it back |
| FieldHelpers.InRange | lib/utils.ts:38-40 | true exactly when min <= n <= max, never when min > max |
| FieldHelpers.ParseNumber | lib/utils.ts:55-61 | Number followed by Number.isInteger succeeds exactly on digit strings, and then gives their non-negative decimal value |
| FieldHelpers.CoerceDateParts | lib/utils.ts:53-79 | the range checks plus the round-trip test equal the declarative date: numeric pieces, y > 1900, 1 <= m <= 12, 1 <= d <= days in month |
| FieldHelpers.CoerceDate | lib/utils.ts:47-85 | three '-' pieces go through the date checks; other strings go to the fallback parser; a Date is returned when valid; anything else gives null |
| FieldHelpers.CoerceDateDigits | lib/utils.ts:52-79 | for digit pieces "y-m-d" the result is the date (y, m, d) exactly when y > 1900, m is a month and d a day of it, null otherwise |
| FieldHelpers.YearText | lib/utils.ts:111-114 | String(n) of a year is its decimal digits, after a '-' when it is negative |
| FieldHelpers.ToISODateStringLocal | lib/utils.ts:109-115 | the text is year, '-', two month digits, '-', two day digits, each reading back as the date's field |
| FieldHelpers.IsoRoundTrip | lib/utils.ts:109-115 | coercing the rendering of a date after 1900 gives back the same date |
| FieldHelpers.ReadBack | lib/utils.ts:52-79 | a text laid out as year digits, '-', month digits, '-', day digits, each reading as the fields of a date after 1900, coerces to that date |
| FieldHelpers.February30Rejected | lib/utils.ts:58-78 | "2023-02-30" coerces to null |
| FieldHelpers.LeapDayAccepted | lib/utils.ts:58-76 | "2024-02-29" coerces to 29 February 2024 |
| FormSchema.Validate | schemas/formSchema.ts:45-57 | a failed parse reports at least one issue; a candidate that is not an object fails with exactly one type issue, at the root |
| FormSchema.ValidateReportsExactly | schemas/formSchema.ts:4-57 | success exactly when no schema path fails; otherwise the issues are one per failing path, in schema order, with that path's message |
| FormSchema.ValidateSucceedsIff | schemas/formSchema.ts:4-57 | success exactly when name, line1, street, city and state are strings of length >= 1, email passes the email check, line2 is absent or a string, country is a string and the trimmed ZIP code matches |
| FormSchema.ValidateAddressPassesIff | schemas/formSchema.ts:4-43 | the address schema passes exactly when every address condition holds |
| FormSchema.ValidateIssuesAtFailingPaths | schemas/formSchema.ts:4-57 | on failure the issue paths are exactly the failing paths, and each issue carries the type message or the schema's message for its path |
| FormSchema.ValidateSucceedsIffNoFailure | schemas/formSchema.ts:4-57 | success exactly when the set of failing paths is empty |
| FormSchema.IssuesCarryMessages | schemas/formSchema.ts:4-57 | along any list of schema positions, every reported issue is at a failing position's path with the message that position's value calls for |
| FormSchema.IssuesAtFailingPaths | schemas/formSchema.ts:4-57 | along any list of schema positions, the set of issue paths is exactly the set of failing positions' paths |
| FormSchema.NoIssuesIffNoFailure | schemas/formSchema.ts:4-57 | along any list of schema positions, nothing is reported exactly when no position fails |
| FormSchema.IssueOrigin | schemas/formSchema.ts:4-57 | every reported issue comes from a failing position at or after the starting index, and is that position's issue |
| FormSchema.IssueOfFailing | schemas/formSchema.ts:4-57 | every failing position at or after the starting index is reported, as one of the issues |
| FormSchema.NonObjectReportsExactly | schemas/formSchema.ts:45 | a candidate that is not an object fails with exactly the expected issues: one type issue at the root |
| FormSchema.NonObjectAddressReportsExactly | schemas/formSchema.ts:45-56 | an object whose address is not an object fails with exactly the expected issues: those of name and email, then one type issue at "address" |
| FormSchema.ObjectAddressReportsExactly | schemas/formSchema.ts:4-57 | an object with an object address succeeds exactly when no issue is expected, and otherwise reports exactly the expected issues |
| FormSchema.FormIssuesMatch | schemas/formSchema.ts:45-57 | for an object with an object address, the expected issues are those of name, then email, then the address schema's, in that order |
| FormSchema.ValidateAddressIssues | schemas/formSchema.ts:4-43 | the address schema's issues are those of line1, line2, street, city, state, country and zipCode in declaration order, and it passes exactly when there are none |
| FormSchema.RequiredIssue | schemas/formSchema.ts:5-30 | for name, line1, street, city and state, the expected issue at a reached position is what the required-string check reports, with that field's message |
| FormSchema.ValidateKeepsFields | schemas/formSchema.ts:4-57 | the parsed record carries every field as given, line2 None exactly when absent, and the ZIP code trimmed |
| FormSchema.ZipShape | schemas/formSchema.ts:39 | the ZIP pattern accepts exactly 5 digits, or 5 digits, '-' and 4 digits |
| FormSchema.ZipStringShape | schemas/formSchema.ts:36-39 | a ZIP value the check accepts is a trimmed string of 5 characters, or of 10 with '-' at index 5, whose first 5 characters are digits |
| FormSchema.AcceptedZipShape | schemas/formSchema.ts:36-39 | an accepted ZIP code is trimmed, 5 or 10 characters long, with 5 leading digits and '-' at index 5 when long |
| FormSchema.AddressCountryIsAnyString | schemas/formSchema.ts:31-35 | replacing a string country by any string changes only the country in the address outcome |
| FormSchema.CountryIsAnyString | schemas/formSchema.ts:31-35 | replacing a string country by any string changes only the country in the form outcome |
| FormSchema.ExampleAddressPasses | schemas/formSchema.ts:4-43 | an address without line2 and with a 5-digit ZIP without surrounding white space passes |
| FormSchema.OnlyEmptyName | schemas/formSchema.ts:45-57 | an object with an empty name, an email that passes the email check and an address that passes fails with exactly one issue, at "name", with "Name is required." |
| FormSchema.EmptyNameIsTheOnlyIssue | schemas/formSchema.ts:46-48 | a record whose only defect is an empty name fails with exactly one issue, at "name", with "Name is required." |
| AiMode.MatchAt | components/ai-mode.tsx:27 | an attempt at a start position yields only matches of the pattern starting there |
| AiMode.MatchAtComplete | components/ai-mode.tsx:27 | every match of the pattern is the one the attempt at its start finds |
| AiMode.MatchUnique | components/ai-mode.tsx:27 | a start position has at most one match |
| AiMode.FindMatchFrom | components/ai-mode.tsx:27 | the scan from position i returns a match starting at or after i with no match starting between i and it, and nothing exactly when no position from i on starts a match |
| AiMode.FindMatch | components/ai-mode.tsx:27 | the scan returns the leftmost match, and nothing exactly when the pattern matches nowhere |
| AiMode.FindMatchIsTheLeftmost | components/ai-mode.tsx:27 | the leftmost match is unique and is what the scan returns |
| AiMode.BlockShape | components/ai-mode.tsx:27 | the captured block starts at the first non-white-space character after the marker, which is '{', and holds exactly one '}', its last character |
| AiMode.ParseFormData | components/ai-mode.tsx:26-36 | null when the pattern does not match; otherwise JSON.parse of the leftmost block, null where the parse throws |
| AiMode.DisplayText | components/ai-mode.tsx:40 | the display text is trimmed; it is trim(text) without a match, and otherwise trim of the text before the leftmost match joined to the text after its block |
| AiMode.NoMarkerShownAsIs | components/ai-mode.tsx:26-40 | a trimmed message with no marker is shown as it is and yields no record |
| AiMode.ExampleMessageParsed | components/ai-mode.tsx:26-36 | the example message hands exactly {"name":"Jane"} to JSON.parse |
| AiMode.ExampleMessageShown | components/ai-mode.tsx:40 | the example message is displayed as "Thanks!  more text", with both spaces around the removed block |
| AiMode.NestedRecordIsCut | components/ai-mode.tsx:27-40 | a block with a nested object is cut after the inner object, and the outer '}' is what remains displayed |
| AiMode.IsOpen | components/ai-mode.tsx:47 | a viewer is open exactly when its id was set to true |
| AiMode.SetOpen | components/ai-mode.tsx:48 | the update adds or overwrites the id with the new state and keeps every other entry |
| AiMode.SetOpenChangesOnlyOneId | components/ai-mode.tsx:47-48 | after a toggle the id reads as the new state and every other id reads as before |
| AiMode.InitiallyClosed | components/ai-mode.tsx:47 | with the initial empty map every viewer reads as closed |
| ChatRoute.ExecuteValidateFormData | app/api/chat/route.ts:39-46 | the callback returns nothing exactly when the record is acceptable, and otherwise the (non-empty) expected issues |

## Left out

- parseNumberSafe, isPositiveNumber, isIntegerNumber and coerceNumberOrFail are not modelled: they rest on floating-point `Number` semantics.
- isNotFuture and isWithinYears are not modelled: they read the wall clock and compare millisecond timestamps.
- cn is not modelled: it is class-name merging delegated to clsx and tailwind-merge.
- isValidDate has no member of its own: an Invalid Date is the `None` of `JsValues.Value.DateObj`, so the Date branch of `CoerceDate` returns the field triple or `None`.
- CoerceDate: the free-form `new Date(input)` parse of other strings is the parameter `fallback`, since its behaviour is implementation-defined.
- ParseNumber: accepts only ASCII digit strings, with "" as 0. `Number` also accepts surrounding white space, a leading '+', a decimal point with zero fraction, exponents and 0x/0o/0b prefixes. Such date pieces are rejected by the model, though the source would accept them. Values above 2^53 lose precision in JavaScript but not here.
- InRange: is stated over integers. The source takes JavaScript numbers, so fractions, NaN (for which it is always false) and ±Infinity are not modelled.
- ToISODateStringLocal: takes a valid date only. For an Invalid Date the source renders "NaN-NaN-NaN", which the model does not represent.
- CoerceDate: does not model the end of the Date range (13 September 275760, shifted by the local time-zone offset). For a "y-m-d" date past it, such as "300000-01-01", `new Date(y, m - 1, d)` is an Invalid Date and the source returns null, while the model returns the date. CoerceDateParts and CoerceDateDigits therefore state the source's "exactly when" only for dates up to that end.
- ConstructLocal: does not model the reading of years 0..99 as 1900..1999, because the only caller passes years above 1900. It also omits the Date range limit (year 275760) and time zones: the local fields of a date are modelled, not its timestamp.
- IsValidUSPhoneDigits and FormatUSPhone count Unicode scalar values, where JavaScript counts UTF-16 code units. The two differ only for input holding characters outside the Basic Multilingual Plane.
- Validate: zod's `email()` check is the parameter `isEmail`. The wording and code of zod's own type-mismatch issue are abstracted to `InvalidType`. Inherited (prototype) properties of the candidate are not modelled.
- ExecuteValidateFormData returns the list of issues. The source returns zod's `error.message`, a serialisation of those issues whose exact text is not modelled.
- ParseFormData: `JSON.parse` is the parameter `parse`.
- IsOpen reads only own entries of the map. An id naming a property that plain objects inherit, such as "constructor", would read as truthy in JavaScript.
- The chat route's model loop is not modelled: the three-step stop condition, the required tool choice, the library's own input validation against the schema, the system prompt and streaming all run inside the `ai` library and a hosted model.
- The React rendering, the chat hook, the page layout and the form component are not modelled: they are user interface without logic of their own.
