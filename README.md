# Mail merge: a Dafny model

This project models the deterministic core of a mail-merge script, `app.py`. The script
reads its settings from the environment and fetches the rows of a Google Sheet. It refuses
to run on an empty sheet or on a sheet in which two rows share an address. Otherwise it
renders an HTML template once per row that has an address and sends each result through
one SMTP session. After any failure the session enforces a 20-minute cooldown, and at the
end the script logs a report of the failed deliveries when any failed.

The model has one module per part of the script:

- `Config`: the required-variable check of `Settings` and the field-name list.
- `Sheets`: `find_duplicate_emails`, a loop over the rows proved against a counting
  specification.
- `Templates`: `EmailTemplate.render`, a loop over the field names proved against the
  function `Rendered`.
- `Sender`: the `EmailSender` class with its `server`, `last_error_time` and
  `failed_emails` fields. Its methods are proved against the functions `AfterConnect`,
  `CheckCooldown`, `SendEmail` and `Report`.
- `MailMerge`: the body of `main()` from the fetched rows on. Its loop is proved against
  the function `SendAll`.
- `Text` and `Encoding`: the Python string operations the script relies on. These are
  `strip`, `lower`, `replace`, `split`, `join`, `str(int)`, and the Latin-1/UTF-8 repair
  of a cell (`value.encode('latin1').decode('utf-8')`, keeping the value when either step
  raises).

Everything that is I/O is an input to the model:

- The rows are a sequence of maps from column name to cell text.
- The clock is a whole number of seconds, passed in.
- How each SMTP connection attempt ends and how each `send_message` ends are inputs
  (`ConnectOutcome`, `SendOutcome`).
- In the loop of `main()`, the k-th call of `send_email` takes these outcomes from
  `connectAt(k)` and `sendAt(k)`.
- `strftime` is the parameter `formatTime`.

The sender keeps a ghost record `sent` of the messages handed to the server. The lemmas
about the run use it to show what was sent to whom.

An unset `REPLACE_ARRAY_NAMES` does not give an empty field list: the code computes
`''.split(',')`, which is `['']`, one empty field name whose token is `{{}}`. The model
follows the code (`Config.UnsetPlaceholderListIsOneEmptyName`). A
template without `{{}}` is still sent verbatim (`Templates.UnsetFieldListKeepsTemplate`).

Stripping happens before the encoding repair. A consequence is
`Templates.StripBeforeRepairKeepsMojibake`: a cell holding `voilà` misread as Latin-1 ends
in U+00A0, which `strip()` removes. After that the repair cannot decode the cut-off
character, so the cell is sent as `voilÃ`. The model keeps this order, as the code has it.

## Model

| member | source | states |
|---|---|---|
| Config.GetEnv | app.py:18-25 | No contract of its own: `os.getenv` over a map of the environment, with the default for an absent name; its properties are stated by `LoadSettings` and `UnsetPlaceholderListIsOneEmptyName` |
| Config.Unset | app.py:37 | No contract of its own: the `if not value` test, true for an absent or empty variable; its properties are stated by `MissingVars` and `LoadSettings` |
| Config.MissingVars | app.py:27-37 | The missing names are exactly the listed names that are unset or empty, without repeats when the list has none; their order is stated by `MissingVarsAppend` |
| Config.MissingVarsAppend | app.py:37 | The filter keeps list order: the missing names of `a + b` are those of `a` followed by those of `b` |
| Config.LoadSettings | app.py:16-39 | Settings fail exactly when a required variable is unset or empty, with the message listing the missing names joined by `, `. Otherwise every setting is its non-empty variable, and the field list is comma-free and joins back to `REPLACE_ARRAY_NAMES` |
| Config.UnsetPlaceholderListIsOneEmptyName | app.py:25 | With `REPLACE_ARRAY_NAMES` unset, the field list is `[""]` |
| Text.ContentStart | app.py:189 | The start of the stripped content lies within the string |
| Text.ContentEnd | app.py:189 | The end of the stripped content lies within the string |
| Text.ContentStartIsFirstNonSpace | app.py:189 | Everything before the content start is whitespace, and the character there is not |
| Text.ContentEndIsLastNonSpace | app.py:189 | Everything after the content end is whitespace, and the character before it is not |
| Text.TrimIsSlice | app.py:189 | `strip()` returns a slice framed by whitespace on both sides, which neither starts nor ends with whitespace; it is empty exactly when the string is all whitespace |
| Text.Trim | app.py:189 | No contract of its own: `strip()` as the slice between `ContentStart` and `ContentEnd`; its properties are `TrimIsSlice`, `TrimUntrimmed` and `TrimFramed` |
| Text.TrimUntrimmed | app.py:189 | `strip()` leaves a string without outer whitespace unchanged |
| Text.TrimFramed | app.py:189 | `strip()` of content surrounded by whitespace is that content |
| Text.Lower | app.py:159 | `lower()` keeps the length and maps every character through the letter mapping |
| Text.LowerNormalises | app.py:159 | The result has no capital `A`-`Z` left, so lowering twice is lowering once |
| Text.ReplaceAll | app.py:195 | No contract of its own: `replace` as a left-to-right scan that replaces non-overlapping occurrences; its properties are the `ReplaceAll` lemmas below |
| Text.ReplaceAllAbsent | app.py:195 | `replace` on a text without the pattern returns the text |
| Text.ReplaceAllSelf | app.py:195 | Replacing a pattern by itself changes nothing |
| Text.ReplaceAllSkip | app.py:195 | A stretch without the pattern's first character is copied through unchanged |
| Text.ReplaceAllAtStart | app.py:195 | An occurrence at the start is replaced and the scan resumes after it |
| Text.ReplaceAllNoEarlyMatch | app.py:195 | A stretch at whose positions no occurrence starts is copied through unchanged |
| Text.FirstCharAbsentNoEarlyMatch | app.py:195 | No occurrence starts inside a stretch that lacks the pattern's first character |
| Text.ReplaceAllSingle | app.py:195 | A text whose first occurrence starts right after `pre`, with none in what follows it, has just that occurrence replaced |
| Text.MissingCharNotContained | app.py:195 | A pattern with a character missing from the text does not occur in it |
| Text.Split | app.py:25 | `split(',')` yields at least one piece, and no piece holds the separator |
| Text.IndexOf | app.py:25 | The first position of the separator: it holds the separator and nothing before it does |
| Text.IndexOfFirst | app.py:25 | Any position holding the first occurrence is the one `IndexOf` finds |
| Text.Join | app.py:39 | No contract of its own: `str.join`, the parts with the separator between each two; its properties are `JoinSplit`, `SplitJoin`, `Sender.JoinAppend` and `Sender.JoinStartsWithFirst` |
| Text.JoinSplit | app.py:25 | Joining the pieces of a split gives back the string |
| Text.SplitJoin | app.py:25 | Splitting a join of separator-free pieces gives back the pieces |
| Text.IntToString | app.py:119 | No contract of its own: `str(int)`, a minus sign before the digits of a negative number; its properties are `NatToString`, `NatToStringRoundTrip` and `Sender.EntryShowsRow` |
| Text.NatToString | app.py:119 | The decimal text of a row number is non-empty, all digits, with no leading zero |
| Text.NatToStringRoundTrip | app.py:119 | Reading the decimal text back gives the number |
| Encoding.Latin1Encode | app.py:192 | `encode('latin1')` succeeds exactly when every character is below 256, and then gives one byte per character with its code |
| Encoding.Latin1Decode | app.py:192 | One character per byte, with the byte's code |
| Encoding.DecodeFirst | app.py:192 | A decoded character consumes between 1 and all of the remaining bytes |
| Encoding.EncodeChar | app.py:192 | A character is encoded in 1 to 4 bytes |
| Encoding.FixEncoding | app.py:190-194 | A value holding a character above U+00FF is kept, because `encode('latin1')` raises |
| Encoding.DecodeFirstEncodeChar | app.py:192 | Decoding the UTF-8 bytes of a character yields it, consuming exactly its bytes |
| Encoding.DecodeTwo | app.py:192 | The same, for two-byte characters |
| Encoding.DecodeThree | app.py:192 | The same, for three-byte characters |
| Encoding.DecodeFour | app.py:192 | The same, for four-byte characters |
| Encoding.Utf8RoundTrip | app.py:192 | Strict UTF-8 decoding inverts UTF-8 encoding |
| Encoding.Latin1RoundTrip | app.py:192 | Latin-1 encoding inverts Latin-1 decoding |
| Encoding.FixEncodingRepairsMojibake | app.py:190-194 | UTF-8 text misread as Latin-1 is repaired exactly |
| Encoding.FixEncodingKeepsAscii | app.py:190-194 | ASCII text passes through the repair unchanged |
| Encoding.AsciiIsOwnMojibake | app.py:192 | ASCII text misread as Latin-1 is itself |
| Encoding.Utf8EncodeAppend | app.py:192 | Encoding a concatenation concatenates the encodings |
| Encoding.MisreadVoila | app.py:192 | `voilà` misread as Latin-1 is `voil`, U+00C3, U+00A0 |
| Encoding.DecodeFirstTail | app.py:192 | The bytes after the first that a character consumes are continuation bytes |
| Encoding.Utf8Decode | app.py:192 | No contract of its own: strict `decode('utf-8')`, `None` where Python raises; its properties are `Utf8RoundTrip` and `TrailingLeadByteFails` |
| Encoding.TrailingLeadByteFails | app.py:192 | Bytes ending in a lead byte are not valid UTF-8 |
| Encoding.RepairFailsOnTrailingLead | app.py:190-194 | A text ending in a Latin-1 lead byte such as `Ã` is kept as it is |
| Sheets.Get | app.py:159 | No contract of its own: `row.get(field, '')`, the empty string for a missing column; its properties are stated by `BlankEmailRowIgnored` and `Templates.BlankCellRendersEmpty` |
| Sheets.NormalizedEmail | app.py:159 | No contract of its own: the `email` cell stripped then lowered; its properties are `NormalizedEmailsAt` and `CaseAndPaddingNormalize` |
| Sheets.NormalizedEmails | app.py:158-159 | One normalised address per row |
| Sheets.NormalizedEmailsAt | app.py:158-159 | Position i holds row i's `email`, stripped and lower-cased |
| Sheets.NormalizedEmailsAppend | app.py:158-159 | Normalising two stretches of rows concatenates their addresses |
| Sheets.ScanStep | app.py:158-164 | One iteration keeps the seen set equal to the non-empty addresses met once or more, and the duplicate set equal to those met twice or more |
| Sheets.FindDuplicateEmails | app.py:153-166 | The result holds exactly the non-empty normalised addresses that occur in two or more rows |
| Sheets.OccurrencesAppend | app.py:158-164 | Counts over consecutive stretches add up |
| Sheets.OccurrencesPositive | app.py:160-164 | An address is counted at least once exactly when it occurs |
| Sheets.OccurrencesAtLeastTwo | app.py:160-164 | An address is counted twice or more exactly when two different positions hold it |
| Sheets.NoDuplicatesIffDistinct | app.py:153-166 | No address is counted twice exactly when the rows' non-empty normalised addresses are pairwise distinct |
| Sheets.DuplicateWitness | app.py:153-166 | A repeated non-empty address makes some address count twice |
| Sheets.BlankEmailRowIgnored | app.py:159-160 | A row with a missing or whitespace-only `email` changes no address's count, wherever it stands |
| Sheets.CaseAndPaddingNormalize | app.py:159 | `"A "` and `"a"` both normalise to `"a"` |
| Sheets.CaseAndPaddingCollide | app.py:153-166 | Rows with `"a"` and `"A "` count `"a"` as the only duplicate |
| Templates.FieldValue | app.py:189-194 | No contract of its own: the cell (empty when the column is missing), stripped, then repaired; its properties are `BlankCellRendersEmpty`, `PaddedAsciiCellIsTrimmed`, `MojibakeCellIsRepaired`, `AsciiCell` and `CutLeadByteIsKept` |
| Templates.Rendered | app.py:187-195 | No contract of its own: the template after each field's token is replaced in list order; `Render` is proved equal to it, and its properties are `RenderedNext`, `RenderedAppend` and `RenderedVerbatim` |
| Templates.Token | app.py:195 | The token for a field is the field wrapped in two braces on each side |
| Templates.Render | app.py:182-196 | The loop's result is `Rendered` for the template and the row, and the unchanged template for an empty field list. The template value is never changed, so rendering a row twice gives the same text |
| Templates.RenderedNext | app.py:188-195 | One more field replaces that field's token with the stripped, repaired cell |
| Templates.RenderedAppend | app.py:188-195 | Rendering with two field lists in a row is rendering with their concatenation |
| Templates.RenderedVerbatim | app.py:187-196 | A template holding none of the configured tokens is returned verbatim, whatever the row |
| Templates.UnsetFieldListKeepsTemplate | app.py:188-195 | With the field list `[""]`, a template without `{{}}` is returned verbatim |
| Templates.BlankCellRendersEmpty | app.py:189 | A missing or whitespace-only cell fills its token with the empty string |
| Templates.PaddedAsciiCellIsTrimmed | app.py:189-194 | ASCII content with whitespace around it is substituted without the whitespace |
| Templates.MojibakeCellIsRepaired | app.py:189-194 | A misread UTF-8 cell without outer whitespace is substituted repaired |
| Templates.AsciiCell | app.py:189-194 | An ASCII cell without outer whitespace is substituted as it is |
| Templates.TwoTokensFilled | app.py:195 | Two tokens, in a text with no other `{` and with a first value free of `{`, are filled one after the other, in place; `n` must differ from the rest of the text in its third character |
| Templates.GreetingRendered | app.py:187-196 | `Hi {{name}}, your code is {{code}}.` with fields `name`, `code` and a `name` value without `{` renders both cells in place |
| Templates.GreetingFilled | app.py:187-196 | With `name` = `Ann` and `code` = `42` the greeting reads `Hi Ann, your code is 42.` |
| Templates.GreetingMissingCode | app.py:187-196 | With the `code` column missing, its token becomes the empty string |
| Templates.CutLeadByteIsKept | app.py:189-194 | A cell whose content, inside any leading and trailing whitespace, ends in a Latin-1 lead byte is sent without the whitespace and unrepaired |
| Templates.StripBeforeRepairKeepsMojibake | app.py:189-194 | A `voilà` cell misread as Latin-1 is sent as `voilÃ`, not `voilà` |
| Sender.AfterConnect | app.py:54-64 | No contract of its own: the state after `connect()` for each outcome; `EmailSender.Connect` and the constructor are proved against it |
| Sender.CheckCooldown | app.py:66-76 | No contract of its own: `_check_cooldown()` as a function of the state and the clock; its properties are `CheckCooldownOutcome`, and `EmailSender.CheckCooldownNow` is proved against it |
| Sender.SendEmail | app.py:78-110 | No contract of its own: `send_email` as a function of the state, the clock and the two outcomes; its properties are the `SendEmail` lemmas below and `FailureStartsCooldown`, and `EmailSender.Send` is proved against it |
| Sender.CoolingDown | app.py:67-71 | No contract of its own: an error is on record and the clock is before 20 minutes after it; its properties are stated by `CheckCooldownOutcome`, `SendEmailWaitsOutCooldown` and `FailureStartsCooldown` |
| Sender.CheckCooldownOutcome | app.py:66-76 | Outside the cooldown: go, no wait, no reconnection. During it: wait until its end, go exactly when the reconnection logs in, else a new error time at the end. The failure list is kept |
| Sender.SendEmailRecordsFailures | app.py:78-110 | A failed call appends exactly one entry, for this address and row, stamped with the time of the failure; a successful call appends none; earlier entries are never changed |
| Sender.SendEmailWaitsOutCooldown | app.py:66-76 | The clock never goes back: a call during the cooldown waits exactly until its end, other calls do not wait |
| Sender.SendEmailTransmits | app.py:79-99 | At most this one message is handed over; a success has handed it over; a failed reconnection hands nothing over and records `Rate limit cooldown` |
| Sender.SendEmailErrorTime | app.py:63-103 | A success keeps the error time; every failure sets it to the clock at the failure, whether the reconnection or `send_message` failed |
| Sender.SendEmailWithoutServer | app.py:88-110 | Without a session, a call outside the cooldown fails with the `NoneType` error and records it |
| Sender.FailureStartsCooldown | app.py:66-110 | After a failure, the next call before the cooldown's end waits exactly 20 minutes from the failure |
| Sender.Entry | app.py:118-123 | No contract of its own: one report block; its property is `EntryShowsRow` |
| Sender.Report | app.py:112-124 | No contract of its own: the report text; `EmailSender.FailedEmailsReport` is proved equal to it, and its properties are `ReportEmptyIff`, `ReportSingle` and `ReportAppend` |
| Sender.Entries | app.py:117-123 | One report block per failure |
| Sender.ReportEmptyIff | app.py:112-116 | The report is `No failed emails to report.` exactly when nothing failed, and otherwise opens with its title |
| Sender.JoinStartsWithFirst | app.py:124 | A joined text begins with its first part |
| Sender.ReportSingle | app.py:112-124 | One failure: title, rule and the entry, on separate lines |
| Sender.ReportAppend | app.py:117-124 | A later failure adds its block at the end, after a line break, and changes nothing before it |
| Sender.JoinAppend | app.py:124 | Joining one more part adds the separator and the part at the end |
| Sender.EntryShowsRow | app.py:119 | An entry opens with `Row ` and the row number in decimal, which reads back as the row number |
| Sender.EmailSender.constructor | app.py:46-52 | A new sender has no session, no error and no failures, then connects once |
| Sender.EmailSender.Connect | app.py:54-64 | Returns true exactly when the login succeeded. A failure sets the error time to now. A failing handshake leaves the new, unauthenticated session stored. A failing constructor leaves the session as it was |
| Sender.EmailSender.CheckCooldownNow | app.py:66-76 | The new state, the answer and the clock are those of `CheckCooldown` |
| Sender.EmailSender.Send | app.py:78-110 | The new state, the return value and the clock are those of `SendEmail` |
| Sender.EmailSender.FailedEmailsReport | app.py:112-124 | The returned text is `Report` of the failure list |
| MailMerge.Step | app.py:227-242 | No contract of its own: one iteration of the loop; its properties are `StepSends`, `StepFailures`, `StepFailuresFromRows` and `StepClock`, and `SendRow` is proved against it |
| MailMerge.SendAll | app.py:226-242 | No contract of its own: the loop over all rows; `RunMailMerge` is proved against it, and its properties are the `SendAll` lemmas below |
| MailMerge.Address | app.py:227 | No contract of its own: the row's `email` cell stripped, not lowered; its properties are stated by `RecipientsExactly` and `StepFailures` |
| MailMerge.Recipients | app.py:226-228 | No more recipients than rows; which rows they are is stated by `RecipientsExactly` and `RecipientsIncreasing` |
| MailMerge.RecipientsExactly | app.py:226-228 | The recipients are exactly the rows with a non-blank stripped address, each with its 1-based row number and that address |
| MailMerge.RecipientsIncreasing | app.py:226 | Recipients come in strictly increasing row order |
| MailMerge.RunMailMerge | app.py:209-247 | No rows: nothing happens. Duplicates: exactly the duplicate set is reported and nothing is sent. Otherwise the sender ends in the state of `SendAll`, the counters are its counters, and the report exists exactly when something failed |
| MailMerge.SendRow | app.py:227-242 | One iteration has the effect of `Step` on the sender, the counters and the clock |
| MailMerge.SendAllNext | app.py:226-242 | The loop over one more row is one more iteration |
| MailMerge.StepSends | app.py:228-242 | An iteration for a row with an address is one `send_email` call, one counter increment and the 2-second pause |
| MailMerge.StepFailures | app.py:227-240 | A row without an address changes nothing. A row with one makes exactly one attempt, and adds one failure entry, for this row and address, exactly when the attempt fails |
| MailMerge.SendAllCounts | app.py:223-242 | Successes plus failures equal the number of rows with a non-blank address |
| MailMerge.SendAllFailures | app.py:226-242 | The run appends one failure entry per failed attempt after the earlier entries |
| MailMerge.StepFailuresFromRows | app.py:226-242 | An iteration keeps every added failure entry tied to a row with its address, in row order |
| MailMerge.SendAllFailuresFromRows | app.py:226-242 | Every failure entry the run adds names a row with an address and that address, at most once per row, in row order |
| MailMerge.SendAllMessagesFromRows | app.py:226-242 | Every message handed to the server goes to a row's stripped address with that row's rendering, at most once per row, in row order |
| MailMerge.StepClock | app.py:232-242 | An iteration moves the clock on by at least the pause for each attempt it makes |
| MailMerge.SendAllClock | app.py:226-242 | The clock never goes back and advances by at least 2 seconds per attempt |
| MailMerge.SendAllHappyPath | app.py:226-242 | With a session stored, no error on record and every send accepted, every recipient succeeds, nothing fails and the run takes exactly 2 seconds per recipient |

## Left out

- `GoogleSheetReader.fetch_data` (app.py:139-151), the HTTP request and CSV parsing: the rows are an input, possibly empty.
- `backend.ts` is not part of this model.
- Reading the template file (`_load_template`, app.py:174-180): the template text is given.
- SMTP itself is left out: the connection, STARTTLS, login, building the MIME message (`From`, `To`, `Subject`) and `send_message`. Only how each attempt ends is an input. Whether `send_message` on a session whose login failed raises is part of that input.
- `disconnect()` (app.py:126-132) and the `finally` block of `main()` are left out: they only close the session.
- `datetime.now()`, `time.sleep` and `strftime`: the clock is integer seconds and SMTP calls take no time. The cooldown wait and the 2-second pause move the clock forward. Timestamps are formatted by the `formatTime` parameter, so the report's text depends on it.
- Logging, `load_dotenv`, the environment reads (the environment is a map) and the module-level `settings` object are left out.
- `str(e)` of an exception is part of the send outcome. The one message the code itself causes, the `AttributeError` for a sender without a session, is written out.
- Exceptions are not modelled. The `ValueError` for duplicates is the outcome `DuplicatesFound`, and the error for missing settings is a `Failure`.
- The cooldown wait reads the clock once. The code reads `datetime.now()` twice (app.py:71-72). If the cooldown ends between the two reads, `wait_time` is negative and `time.sleep` (app.py:74) raises `ValueError`. That call is outside the `try` of `send_email`, so the error ends the whole loop through app.py:248-249. The model does not capture this abort.
- Cells that are not strings (pandas NaN, numbers) are left out: every cell is text.
- Text.Lower: maps only ASCII `A`-`Z`, while Python's `lower()` maps all of Unicode. Addresses that differ only in non-ASCII case are therefore not recognised as duplicates by the model.
