# mxctl string helpers in Dafny

This project models the two groups of self-contained string logic in the
`mxctl` mail command-line tool.

- **Mail helpers** (`src/my_cli/util/mail_helpers.py`):
  - Subject normalisation strips `Re:`, `Fwd:`, `Fw:`, `AW:`, `SV:` and `VS:` markers until nothing changes.
  - The raw-header parser turns header text into a key → value map. Repeated keys become lists, and continuation lines are folded in.
  - The address extractor falls back to its input.
  - The mailbox default of `resolve_message_context`.
- **Date helpers** (`src/my_cli/util/dates.py`):
  - The best-effort conversion of AppleScript long dates (`[Weekday, ]Month D, YYYY at H:MM:SS AM|PM`) to ISO 8601.
  - The `Month DD, YYYY` rendering.
  - The strict `YYYY-MM-DD` parser, which dies with a message on bad input.

The model has four modules, one file each:

- `Wrappers`: `Option` and `Result`. `Err` carries the message passed to `die` (which prints it after `Error: ` and exits).
- `Text`: the Python `str` operations the helpers use.
  - `strip`, with the exact `str.isspace` whitespace set of CPython, all of Unicode's and not only ASCII's. The same set is behind `\s` in `re`.
  - `partition`, `split` and `startswith`.
  - ASCII case folding.
- `MailHelpers`: the mail helpers.
  - `parse_email_headers` is a method with a loop. It updates a map and an insertion order, and its result is tied to a functional specification (`Run`/`Step`).
  - That specification is in turn related to an independent reading of the header text: a flat list of unfolded fields (`Unfold`).
  - `normalize_subject` is a method whose `while` loop has the string length as its measure. It is tied to the recursive function `Normalize`.
  - The case-insensitive marker match is the one `re.IGNORECASE` performs, including the long s (U+017F) that it treats as equal to `s`.
- `Dates`: a date is the six fields of a `datetime`, with the `datetime` constructor's validity rules as `Valid`.
  - The behaviour of `datetime.strptime` with the three format strings used is written out field by field.
  - A space in a format matches one or more whitespace characters. The only directive whose pattern can hold whitespace is `%d`, with its alternative ` [1-9]`. In the two long formats every `%d` follows a space, whose `\s+` has already taken that blank. So a string has a long format's layout exactly when it is trimmed and its whitespace-separated words are the format's fields.
  - `YYYY-MM-DD` has no space before `%d`, so there the blank form of the day is accepted.
  - `parse_applescript_date` tries the weekday form, then the form without a weekday, and otherwise returns its input.

All calls into the environment are parameters or are left out: the account resolver, the AppleScript escaper, `email.utils.parseaddr` and the wall clock.

## Model

| member | source | states |
|---|---|---|
| Text.Strip | src/my_cli/util/mail_helpers.py:48 | `str.strip()`: the result has no whitespace at either end and is no longer than the input |
| Text.StripRemovesOnlySpace | src/my_cli/util/mail_helpers.py:50 | what `strip` removes at the front and at the back is all whitespace |
| Text.StripIdempotent | src/my_cli/util/mail_helpers.py:80 | stripping twice is stripping once |
| Text.Partition | src/my_cli/util/mail_helpers.py:37 | `line.partition(": ")` on a line containing the separator: the line is head + separator + tail, and the separator does not occur earlier |
| Text.Split | src/my_cli/util/mail_helpers.py:35 | `raw.split("\n")`: at least one part; joining the parts with the separator gives the input back; no part contains the separator |
| Text.SplitJoin | src/my_cli/util/mail_helpers.py:35 | splitting separator-free parts that were joined by the separator gives the parts back |
| MailHelpers.MailboxOrDefault | src/my_cli/util/mail_helpers.py:23 | a missing or empty mailbox becomes `INBOX`; any other mailbox is kept |
| MailHelpers.ResolveMessageContext | src/my_cli/util/mail_helpers.py:14-28 | fails with `Account required. Use -a ACCOUNT.` exactly when the resolver gives no account or an empty one; otherwise returns the account, the defaulted mailbox and their escaped forms |
| MailHelpers.StartsBlank | src/my_cli/util/mail_helpers.py:36 | `line.startswith(" ") or line.startswith("\t")` holds exactly when the first character is a blank or a tab |
| MailHelpers.IsHeaderLine | src/my_cli/util/mail_helpers.py:36 | a header line holds `": "` somewhere and does not start with a blank or a tab, so it is not empty |
| MailHelpers.Continuation | src/my_cli/util/mail_helpers.py:48-50 | the text appended by a continuation line is one space followed by the stripped line |
| MailHelpers.AddValue | src/my_cli/util/mail_helpers.py:39-45 | a new key gets a plain value and joins the order; a seen key's values gain the new one at the end and the key becomes a list; every other key is unchanged |
| MailHelpers.AppendToLast | src/my_cli/util/mail_helpers.py:46-50 | a continuation extends the last value of the current key (the plain value, or the last list element); the kind of value, the keys, the order and every other key are unchanged |
| MailHelpers.Step | src/my_cli/util/mail_helpers.py:36-50 | one line keeps the parser state well formed: a list value has at least two elements, and the current key, once set, is a key of the map (so `headers[current_key]` never fails) |
| MailHelpers.Run | src/my_cli/util/mail_helpers.py:33-50 | the state after any lines, one step per line from the empty dictionary with no current key, is well formed |
| MailHelpers.ParseHeaders | src/my_cli/util/mail_helpers.py:31-51 | the dictionary after all lines of `raw`: a list value always holds at least two values |
| MailHelpers.ParseLine | src/my_cli/util/mail_helpers.py:36-50 | the in-place update of the map and of `current_key` for one line is the specification step |
| MailHelpers.ParseEmailHeaders | src/my_cli/util/mail_helpers.py:31-51 | the loop over the lines of `raw` returns exactly the specification `ParseHeaders(raw)` |
| MailHelpers.RunAgreesWithUnfold | src/my_cli/util/mail_helpers.py:35-50 | after any prefix of the lines, the parser state agrees with the unfolded field list: the same keys, the values in order, the first-appearance order, and the same current key |
| MailHelpers.AgreesAfterHeader | src/my_cli/util/mail_helpers.py:37-45 | a header line adds one field, keyed by the text before the first `": "` and valued by the rest |
| MailHelpers.AgreesAfterContinuation | src/my_cli/util/mail_helpers.py:46-50 | a continuation line extends the body of the last field and nothing else |
| MailHelpers.ParseHeadersMeaning | src/my_cli/util/mail_helpers.py:31-51 | a key is present exactly when a field has that name; its values are those fields' bodies in order; it is a plain string exactly when there is one such field; keys are in first-appearance order |
| MailHelpers.ExtractEmail | src/my_cli/util/mail_helpers.py:54-63 | the parsed address when it is non-empty, otherwise the input unchanged |
| MailHelpers.ExtractEmailIdempotent | src/my_cli/util/mail_helpers.py:62-63 | extracting from an extracted address changes nothing, when the address parser maps an address to itself or to nothing |
| MailHelpers.LeadingMarker | src/my_cli/util/mail_helpers.py:80 | the anchored alternative `(Re\|Fwd\|Fw\|AW\|SV\|VS):` matched case-insensitively: the marker found is one of the six and is followed by a colon, and none is found exactly when none matches |
| MailHelpers.MarkerAtUnique | src/my_cli/util/mail_helpers.py:80 | at most one of the alternatives can match at the start of a subject |
| MailHelpers.StripMarker | src/my_cli/util/mail_helpers.py:80 | the substitution changes nothing when no marker leads and otherwise makes the subject strictly shorter |
| MailHelpers.Pass | src/my_cli/util/mail_helpers.py:80 | one pass yields a trimmed string; a pass that changes the string makes it strictly shorter |
| MailHelpers.PassRemovesMarker | src/my_cli/util/mail_helpers.py:80 | a pass over any case spelling of a marker, a colon and the rest gives the stripped rest |
| MailHelpers.Normalize | src/my_cli/util/mail_helpers.py:79-84 | the result is a fixed point of the pass and no longer than the input |
| MailHelpers.NormalizeSubject | src/my_cli/util/mail_helpers.py:66-84 | the `while True` loop terminates, because the length decreases, and returns the normal form, which a further pass leaves alone |
| MailHelpers.NormalizeClean | src/my_cli/util/mail_helpers.py:80-84 | the result has no whitespace at either end and no leading marker |
| MailHelpers.NormalizeIdempotent | src/my_cli/util/mail_helpers.py:79-83 | normalising twice is normalising once |
| MailHelpers.NormalizeUnchangedIff | src/my_cli/util/mail_helpers.py:81-82 | a subject comes back unchanged exactly when it is trimmed and has no leading marker |
| MailHelpers.NormalizeRemovesMarker | src/my_cli/util/mail_helpers.py:79-84 | normalising a marker-prefixed subject is normalising the stripped rest |
| MailHelpers.NormalizeNested | src/my_cli/util/mail_helpers.py:76-84 | any number of nested prefixes, in any case spelling and with any whitespace after the colons, in front of a trimmed non-empty subject collapse completely |
| MailHelpers.NormalizeMarkerOnly | src/my_cli/util/mail_helpers.py:79-84 | a subject that is only a marker, its colon and whitespace normalises to the empty string |
| MailHelpers.NormalizeBareReplyExample | src/my_cli/util/mail_helpers.py:80-84 | `Re: ` normalises to the empty string |
| MailHelpers.NormalizeFixed | tests/test_ai_classification.py:97-99 | a trimmed subject without a leading marker is returned unchanged |
| MailHelpers.NormalizePlainExample | tests/test_ai_classification.py:99 | `Plain Subject` stays `Plain Subject` |
| MailHelpers.NormalizeNestedExample | tests/test_ai_classification.py:82-84 | `Re: Re: Fwd: ` in front of any trimmed subject disappears |
| MailHelpers.NormalizeMixedCaseExample | tests/test_ai_classification.py:86-88 | `re: RE: fwd: ` in front of any trimmed subject disappears |
| MailHelpers.NormalizeNestedPlain | tests/test_ai_classification.py:82-88 | with a subject that has no marker itself, both nested-prefix inputs normalise to exactly that subject (as `Subject` does in the tests) |
| Dates.Pad2 | src/my_cli/util/dates.py:49 | `%m`, `%d`, `%H`, `%M`, `%S`: exactly two digits denoting the number |
| Dates.Pad4 | src/my_cli/util/dates.py:20 | `%Y`: exactly four digits denoting the year |
| Dates.ShortNumber | src/my_cli/util/dates.py:44-45 | the numeric directives read one or two digits, and the value is their decimal value |
| Dates.YearField | src/my_cli/util/dates.py:13 | `%Y` reads exactly four digits |
| Dates.DateDayField | src/my_cli/util/dates.py:13 | `%d` at the end of `%Y-%m-%d` (where a blank and a digit 1–9 are accepted too) reads only days 1–31 |
| Dates.Meridiem | src/my_cli/util/dates.py:44-45 | `%p` reads exactly the two-letter words `am` and `pm` in any letter case, and PM exactly when the first letter is `p` |
| Dates.To24 | src/my_cli/util/dates.py:44-45 | `%I` with `%p` gives an hour 0–23 |
| Dates.To24OfTo12 | src/my_cli/util/dates.py:49 | every 24-hour hour has a 12-hour reading that converts back to it, and the reading is PM exactly from hour 12 on |
| Dates.To12OfTo24 | src/my_cli/util/dates.py:44-45 | the 12-hour conversion is injective: each reading is the reading of the hour it gives |
| Dates.NameIndex | src/my_cli/util/dates.py:44-45 | `%A`/`%B` lookup: the first name equal up to ASCII case; none exactly when no name matches |
| Dates.MonthOf | src/my_cli/util/dates.py:45 | the month number is 1–12 and the word spells that month's name |
| Dates.MonthNamesDistinct | src/my_cli/util/dates.py:45 | no two English month names are equal up to case, so `%B` is unambiguous |
| Dates.MonthOfName | src/my_cli/util/dates.py:45 | `%B` reads each name `%B` prints as its own month |
| Dates.WordsAreWords | src/my_cli/util/dates.py:44-45 | the whitespace-separated words of any string (the fields between the `\s+` runs) are non-empty and hold no whitespace |
| Dates.WordsOfJoin | src/my_cli/util/dates.py:44-45 | words without whitespace joined by single spaces split back into the same words |
| Dates.JoinTrimmed | src/my_cli/util/dates.py:44-45 | such a join has no whitespace at either end |
| Dates.Clock | src/my_cli/util/dates.py:44-45 | `%I:%M:%S` gives an hour 1–12, a minute 0–59 and a second 0–61 |
| Dates.DateOfWords | src/my_cli/util/dates.py:45 | the six fields of the format without a weekday yield only valid dates: the `datetime` constructor refuses a missing day, year 0 and seconds 60–61 (with DateOfFields and DateOfWordsFields, the date is exactly the one the fields name) |
| Dates.DateOfFields | src/my_cli/util/dates.py:45 | six words whose fields read as the parts of a valid date yield that date |
| Dates.DateOfWordsFields | src/my_cli/util/dates.py:45 | conversely, a success is the date the fields name: month, day and year read from their words, the hour from the clock and the meridiem, minute and second from the clock |
| Dates.DateOfWordsRejectsMissingDay | src/my_cli/util/dates.py:45-51 | fields naming a day the month does not have yield nothing, as the `datetime` constructor raises |
| Dates.ParseLongDate | src/my_cli/util/dates.py:45-48 | a success is a valid date, read from a trimmed string of six words |
| Dates.ParseWeekdayDate | src/my_cli/util/dates.py:44-48 | a success is a valid date, read from a trimmed string of seven words |
| Dates.ParseLongDateOfWords | src/my_cli/util/dates.py:45-48 | six words joined by single spaces parse field by field |
| Dates.ParseWeekdayDateOfWords | src/my_cli/util/dates.py:44-48 | a weekday word before six words is checked and then ignored |
| Dates.ParseAppleScriptDate | src/my_cli/util/dates.py:33-54 | never fails: the result is the input itself or a fixed-width ISO string |
| Dates.WeekdayFormFirst | src/my_cli/util/dates.py:42-49 | when the weekday form parses, its date is what is returned |
| Dates.FormsExclusive | src/my_cli/util/dates.py:43-46 | the two formats never both parse the same string |
| Dates.Iso | src/my_cli/util/dates.py:49 | `%Y-%m-%dT%H:%M:%S` gives the fixed-width shape: 19 characters, digits in every field and the separators in place |
| Dates.IsoShape | src/my_cli/util/dates.py:49 | the ISO rendering is `YYYY-MM-DDTHH:MM:SS` with digits in every field, and the fields read back as the date |
| Dates.IsoInjective | src/my_cli/util/dates.py:49 | distinct dates render differently |
| Dates.IsoUnchanged | src/my_cli/util/dates.py:49-54 | an ISO string is returned verbatim |
| Dates.ParseAppleScriptDateIdempotent | src/my_cli/util/dates.py:33-54 | converting twice is converting once |
| Dates.OneWordUnchanged | src/my_cli/util/dates.py:43-54 | a string that is a single word matches neither format and is returned verbatim |
| Dates.UntrimmedUnchanged | src/my_cli/util/dates.py:53-54 | an input with whitespace at either end matches neither format and is returned verbatim |
| Dates.LongDateRejectsMissingDay | src/my_cli/util/dates.py:43-54 | a well-shaped long date naming a day its month lacks matches neither format and is returned verbatim |
| Dates.WeekdayDateRejectsMissingDay | src/my_cli/util/dates.py:43-54 | the same with a weekday in front |
| Dates.MissingDayExample | src/my_cli/util/dates.py:50-54 | `February 30, 2026 at 1:00:00 PM` is returned verbatim |
| Dates.ToAppleScriptDate | src/my_cli/util/dates.py:18-20 | `%B %d, %Y`: the month's name, a blank, two digits reading as the day, `, ` and four digits reading as the year, nothing else |
| Dates.ToAppleScriptDateWords | src/my_cli/util/dates.py:18-20 | `to_applescript_date` is the full month name, the two-digit day with a comma, and the four-digit year |
| Dates.LongDateRoundTrip | src/my_cli/util/dates.py:45-49 | every rendered long date with its 12-hour time (`January 15, 2026 at 3:30:00 PM`) converts to the date's ISO form |
| Dates.WeekdayDateRoundTrip | src/my_cli/util/dates.py:44-49 | with any weekday name in front, the same ISO form; the weekday is not checked against the date |
| Dates.MorningExample | tests/test_formatting.py:61-72 | `January 14, 2026 at 9:00:00 AM` converts to `2026-01-14T09:00:00` |
| Dates.AfternoonExample | tests/test_formatting.py:61-72 | `January 15, 2026 at 3:30:00 PM` converts to `2026-01-15T15:30:00` |
| Dates.DocstringExample | src/my_cli/util/dates.py:38 | `January 14, 2026 at 2:30:00 PM` converts to `2026-01-14T14:30:00` |
| Dates.DocstringWeekdayExample | src/my_cli/util/dates.py:37 | `Tuesday, January 14, 2026 at 2:30:00 PM` converts to `2026-01-14T14:30:00` (as tests/test_formatting.py:49-58 expects), although 14 January 2026 is a Wednesday |
| Dates.ParseDate | src/my_cli/util/dates.py:10-15 | a success is a valid date at midnight; a failure carries `Invalid date format: '<input>'. Use YYYY-MM-DD (e.g. 2026-02-14).` |
| Dates.ParseDateOfFields | src/my_cli/util/dates.py:13 | three dash-free fields that read as year, month and day of a valid date parse to that date |
| Dates.ParseDateRoundTrip | src/my_cli/util/dates.py:13 | every date's `YYYY-MM-DD` text parses back to that day at midnight |
| Dates.ParseDateUnpadded | src/my_cli/util/dates.py:13 | month and day without leading zeros are accepted too |
| Dates.ParseDateBlankPaddedDay | src/my_cli/util/dates.py:13 | a blank in place of the day's leading zero is accepted (`2026-02- 5`) |
| Dates.ParseDateRejectsMissingDay | src/my_cli/util/dates.py:12-15 | a well-shaped date naming a day its month lacks is refused with the message |
| Dates.ParseDateLayout | src/my_cli/util/dates.py:13 | a success is exactly three dash-separated fields: four year digits, a month field and a day field |
| Dates.ParseDateStable | src/my_cli/util/dates.py:10-15 | re-rendering a parsed date as `YYYY-MM-DD` parses to the same result |
| Dates.ParseDateExample | src/my_cli/util/dates.py:15 | `2026-02-14`, the example in the message, parses to 14 February 2026 |

## Left out

- Digits are ASCII only. `\d` in `strptime` also accepts other Unicode decimal digits.
- Locale: the month names, weekday names and `AM`/`PM` are the English ones.
- Dates.Pad4: years below 1000 are rendered with four digits. The platform's `strftime` may print fewer digits for them.
- `days_ago` and `today` (`src/my_cli/util/dates.py:23-30`): they read the wall clock.
- `resolve_account`, `escape` and `DEFAULT_MAILBOX`: these live in modules that are not part of this model. The resolver and the escaper are function parameters, and the default mailbox is the `INBOX` the tests expect.
- `die`: printing `Error: ` and the message, then exiting with status 1, is modelled as an `Err` result carrying the message.
- `email.utils.parseaddr`: it is a function parameter and its grammar is not modelled. ExtractEmailIdempotent assumes that it maps an address to itself or to nothing.
- Microseconds, time zones and the full `datetime` object are left out. A date is its six fields.
