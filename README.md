# Time-phrase normaliser of the RAG chatbot

The chatbot answers questions in Indonesian. It first rewrites relative-time
phrases in the user's question into absolute dates, and only then sends the
question to the retrieval chain. `transform_query_with_time` does this
rewriting:

- It lower-cases the query and looks for three phrases in a fixed order:
  "hari ini" (today), "minggu ini" (this week), "bulan ini" (this month).
- Only the first phrase found is acted on.
- The matching is case-insensitive, but the replacement is not. Every
  exact-case occurrence of that phrase in the original query is replaced:
  - "hari ini" becomes "pada tanggal DD Month YYYY";
  - "minggu ini" becomes "antara <Monday> dan <Sunday>" for the week around today;
  - "bulan ini" becomes "pada bulan Month YYYY".
- A query with none of the phrases comes back unchanged.

The read loop ends on "exit" or "quit" in any case, skips empty lines, and
sends everything else.

The model is pure Dafny: datatypes, functions and lemmas.

- `wrappers.dfy`: `Option` and `Result`.
- `strings.dfy`: Python's `str.lower` (ASCII), `in`, `str.replace`, and
  `split`/`join` as the reference definition that `replace` is proved against.
- `calendar.dfy`: the proleptic Gregorian `date` of Python, years 1 to 9999:
  - `toordinal` and `weekday`;
  - `date + timedelta`, which is `None` where Python raises `OverflowError`;
  - `relativedelta(weekday=MO(-1))` and `relativedelta(weekday=SU(1))`.
- `date_format.dfy`: `strftime("%d %B %Y")` and `strftime("%B %Y")` with
  English month names, plus parsers used to state that the rendered text
  determines the date.
- `chatbot.dfy`: the normaliser and the line classification.
- `examples.dfy`: worked instances, computed from the definitions or derived from the general lemmas.

`str.replace` without a count replaces every exact-case occurrence, and so
does the model.

## Model

| member | source | states |
|---|---|---|
| Chatbot.TodayPhrase | chatbot.py:19-20 | the text that replaces "hari ini"; `TodayRule` states it is "pada tanggal " followed by the one text that reads back as the reference date |
| Chatbot.WeekPhrase | chatbot.py:27 | the text that replaces "minggu ini"; `WeekPhraseRoundTrip` states its layout and that both dates read back |
| Chatbot.MonthPhrase | chatbot.py:32-33 | the text that replaces "bulan ini"; `MonthRule` states it is "pada bulan " followed by the one text that reads back as the month and year |
| Chatbot.TransformQuery | chatbot.py:12-36 | fails only when "minggu ini" is detected and the week's Sunday is past 9999-12-31; a query with none of the three phrases (in any case) comes back unchanged |
| Chatbot.TodayRule | chatbot.py:15-20 | when "hari ini" is detected, the result joins the query's pieces around "hari ini" with "pada tanggal " + the date; those pieces rebuild the query and contain no "hari ini"; the inserted date parses back to the reference date, and it is the only text that does |
| Chatbot.WeekRule | chatbot.py:22-28 | with no "hari ini" and "minggu ini" present, the rule succeeds iff the Sunday is representable; the result joins the pieces with "antara Monday dan Sunday", where the Monday is on or before today, the Sunday on or after, six days apart |
| Chatbot.WeekPhraseRoundTrip | chatbot.py:27 | the week phrase is "antara ", the Monday's date text, " dan ", the Sunday's date text, and each date text parses back to its date |
| Chatbot.MonthRule | chatbot.py:30-33 | with neither earlier phrase and "bulan ini" present, the result joins the pieces with "pada bulan " + month and year, and the inserted text parses back to exactly that month and year, and it is the only text that does |
| Chatbot.OtherCaseUnchanged | chatbot.py:15-33 | a phrase detected only in another letter case selects its rule but replaces nothing, so the query comes back unchanged (for the week rule, unless the week overflows) |
| Chatbot.ExactPhraseDetected | chatbot.py:15-20 | a query holding "hari ini" verbatim always takes the first rule and always comes back strictly longer |
| Chatbot.ClassifyLine | chatbot.py:71-74 | the action taken on one input line; `ClassifyIgnoresCase`, `ClassifyShape` and `Examples.ClassifyExamples` state what it means |
| Chatbot.ClassifyIgnoresCase | chatbot.py:71 | classifying a line gives the same action as classifying its lower-cased form |
| Chatbot.ClassifyShape | chatbot.py:71-74 | only a four-character line ends the loop (there is no trimming); a line is skipped iff it is empty |
| Strings.Lower | chatbot.py:15 | lower-casing keeps the length and maps each character on its own |
| Strings.LowerIdempotent | chatbot.py:15 | lower-casing twice is lower-casing once |
| Strings.LowerKeepsLowercaseMatch | chatbot.py:15-18 | a lower-case phrase found in the text is still found in the lower-cased text |
| Strings.Contains | chatbot.py:18 | the `in` test; `ContainsIffOccurs` states that it holds iff the phrase occurs at some index |
| Strings.ContainsIffOccurs | chatbot.py:18 | the substring test holds iff the phrase occurs at some index |
| Strings.ReplaceAll | chatbot.py:20 | `str.replace` without a count; `ReplaceIsJoinOfSplit` proves it equal to joining the split pieces with the replacement |
| Strings.SplitJoin | chatbot.py:20 | joining the pieces between occurrences with the phrase gives back the original text |
| Strings.ReplaceIsJoinOfSplit | chatbot.py:20 | replace-all equals joining the pieces between occurrences with the replacement |
| Strings.SplitFirstPieceLeftmost | chatbot.py:20 | when the phrase occurs, the first piece is the text before its leftmost occurrence: the phrase occurs right after that piece and at no earlier index |
| Strings.SplitRestAfterFirst | chatbot.py:20 | when the phrase occurs, the remaining pieces are the split of the text after the first piece and its occurrence, so the pieces are determined also for self-overlapping phrases |
| Strings.SplitPiecesAvoid | chatbot.py:20 | no piece between occurrences contains the phrase, so every occurrence is replaced |
| Strings.SplitSingleIffAbsent | chatbot.py:20 | the text splits into itself alone iff the phrase does not occur |
| Strings.ReplaceAbsent | chatbot.py:20 | replacing a phrase that does not occur leaves the text unchanged |
| Strings.ReplaceGrows | chatbot.py:20 | replacing with a longer text never shortens, and lengthens iff the phrase occurs |
| Strings.ReplaceAllSkip | chatbot.py:28 | a prefix with no character that can start the phrase passes through replace unchanged |
| Strings.FirstCharAbsent | chatbot.py:18 | text without the phrase's first character does not contain the phrase |
| Strings.LowerOfLowercase | chatbot.py:15 | text with no upper-case letter is its own lower-case form |
| Calendar.DaysBeforeYearStep | chatbot.py:25-26 | the closed-form day count before a year grows by that year's length |
| Calendar.ToOrdinal | chatbot.py:25-26 | `date.toordinal()`; `OrdinalBounds`, `OrdinalOrder` and `OrdinalInjective` state its range, that it follows calendar order, and that it is one-to-one |
| Calendar.Weekday | chatbot.py:25-26 | `date.weekday()`; `WeekdayShift` states that it moves by the day count modulo 7, and `WeekStart` that every date has a Monday on or before it |
| Calendar.OrdinalBounds | chatbot.py:25-26 | every valid date's ordinal lies in 1..3652059 |
| Calendar.OrdinalOrder | chatbot.py:25-26 | calendar order and ordinal order agree, in both directions |
| Calendar.OrdinalInjective | chatbot.py:25-26 | distinct dates have distinct ordinals |
| Calendar.NextDayOrdinal | chatbot.py:26 | the next day fails only on the last representable day, and otherwise adds one to the ordinal |
| Calendar.PrevDayOrdinal | chatbot.py:25 | the previous day fails only on 0001-01-01, and otherwise subtracts one from the ordinal |
| Calendar.AddDays | chatbot.py:25-26 | `date + timedelta(days=n)`, walked one day at a time: a result is always a valid date; `AddDaysOrdinal` states where it lands and when it fails |
| Calendar.AddDaysOrdinal | chatbot.py:25-26 | adding n days succeeds iff the target ordinal is in range, and then moves the ordinal by exactly n |
| Calendar.WeekdayShift | chatbot.py:25-26 | moving n days moves the weekday by n modulo 7 |
| Calendar.WeekdayJump | chatbot.py:25-26 | the day count dateutil's `relativedelta(weekday=W(n))` moves a date; `JumpForward`, `JumpBackward` and `WeekJumps` state where it lands for forward and backward jumps and for MO(-1) and SU(1) |
| Calendar.JumpForward | chatbot.py:26 | a forward weekday jump lands on the target weekday, within the nth week ahead |
| Calendar.JumpBackward | chatbot.py:25 | a backward weekday jump lands on the target weekday, within the nth week back |
| Calendar.RelativeWeekday | chatbot.py:25-26 | `d + relativedelta(weekday=W(n))`; `RelativeWeekdayForward` and `RelativeWeekdayBackward` state where it lands and when it fails |
| Calendar.RelativeWeekdayForward | chatbot.py:26 | `relativedelta(weekday=W(n))` with n >= 1 lands on the target weekday between (n-1)*7 and n*7-1 days later, and fails iff that day is past the last representable date |
| Calendar.RelativeWeekdayBackward | chatbot.py:25 | `relativedelta(weekday=W(n))` with n <= -1 lands on the target weekday between (-n-1)*7 and -n*7-1 days earlier, and fails iff that day is before 0001-01-01 |
| Calendar.WeekJumps | chatbot.py:25-26 | MO(-1) moves back by the weekday number, SU(1) forward by 6 minus it |
| Calendar.WeekStart | chatbot.py:25 | MO(-1) always succeeds and lands on a Monday exactly the weekday number of days earlier |
| Calendar.WeekEnd | chatbot.py:26 | SU(1) lands on a Sunday exactly 6 minus the weekday number of days later, and fails iff that is past the last representable day |
| Calendar.WeekBounds | chatbot.py:24-26 | the Monday and Sunday of the week; a week it returns has two valid dates, and `WeekBoundsSpec` states the rest |
| Calendar.WeekBoundsSpec | chatbot.py:24-26 | the week exists iff its Sunday is representable; it then runs Monday to Sunday, contains the date, spans six days, and starts (ends) on the date when that is a Monday (Sunday) |
| DateFormat.MonthName | chatbot.py:19 | the `%B` field, also used at chatbot.py:27 and 32; `MonthNameRoundTrip` states that the name determines the month |
| DateFormat.TwoDigits | chatbot.py:19 | the `%d` field, also used at chatbot.py:27; `TwoDigitsRoundTrip` and `TwoDigitsExact` state that the field and the day determine each other |
| DateFormat.FourDigits | chatbot.py:19 | the `%Y` field, also used at chatbot.py:27 and 32; `FourDigitsRoundTrip` and `FourDigitsExact` state that the field and the year determine each other |
| DateFormat.MonthNameRoundTrip | chatbot.py:19 | the English month name determines the month |
| DateFormat.TwoDigitsRoundTrip | chatbot.py:19 | the two-digit `%d` field reads back as the day |
| DateFormat.FourDigitsRoundTrip | chatbot.py:19 | the four-digit `%Y` field reads back as the year |
| DateFormat.FormatDate | chatbot.py:19 | `strftime("%d %B %Y")`, also used twice at chatbot.py:27; `FormatDateRoundTrip` and `ParseDateExact` state that its text and the date determine each other |
| DateFormat.FormatMonthYear | chatbot.py:32 | `strftime("%B %Y")`; `FormatMonthYearRoundTrip` and `ParseMonthYearExact` state that its text and the month and year determine each other |
| DateFormat.TwoDigitsExact | chatbot.py:19 | the only two-character text that reads back as a number is that number's `%d` field |
| DateFormat.FourDigitsExact | chatbot.py:19 | the only four-character text that reads back as a number is that number's `%Y` field |
| DateFormat.ParseDateExact | chatbot.py:19 | a text that reads back as a date is exactly the "DD Month YYYY" text of that date |
| DateFormat.ParseMonthYearExact | chatbot.py:32 | a text that reads back as a month and year is exactly the "Month YYYY" text of them |
| DateFormat.FormatDateRoundTrip | chatbot.py:19 | "DD Month YYYY" parses back to the same date |
| DateFormat.FormatMonthYearRoundTrip | chatbot.py:32 | "Month YYYY" parses back to the same year and month |
| DateFormat.FormatMonthYearIgnoresDay | chatbot.py:32 | the month phrase is the same for all days of a month |
| Examples.WeekOfWednesday | chatbot.py:25-26 | Wednesday 2024-03-13 lies in the week 11 to 17 March 2024 |
| Examples.WeekOfSunday | chatbot.py:25-26 | Sunday 2024-03-17 ends its own week, which starts on 11 March |
| Examples.WeekAcrossYears | chatbot.py:25-26 | the week of 2025-01-01 runs from 2024-12-30 to 2025-01-05 |
| Examples.WeekPastMaxYear | chatbot.py:26 | the week of 9999-12-31 cannot be built |
| Examples.TodayExample | chatbot.py:18-20 | "berita hari ini" on 2024-03-15 becomes "berita pada tanggal 15 March 2024" |
| Examples.WeekQueryExample | chatbot.py:23-28 | "rapat minggu ini" on 2025-01-01 becomes "rapat antara 30 December 2024 dan 05 January 2025" |
| Examples.WeekOverflowExample | chatbot.py:25-26 | "minggu ini" on 9999-12-31 fails with the overflow |
| Examples.MonthExample | chatbot.py:31-33 | "laporan bulan ini" on 2024-03-15 becomes "laporan pada bulan March 2024" |
| Examples.OtherCaseExample | chatbot.py:15-20 | "HARI INI minggu ini" selects the first rule, replaces nothing, and leaves the lower-case "minggu ini" alone |
| Examples.ClassifyExamples | chatbot.py:71-74 | "EXIT" and "Quit" end the loop; " exit" and "exit " are sent as questions; the empty line is skipped |

## Left out

- `datetime.now()` becomes the parameter `now`. The time of day is not modelled because it does not affect any output; only the date is used.
- The retrieval chain is not modelled: the API-key and database checks, the embedding model, the vector store, the LLM and `RetrievalQA` (chatbot.py:38-65, 79-80). These are calls into external services.
- The terminal I/O of the read loop (`input`, `print`) and the loop itself are not modelled. Only the classification of a line (chatbot.py:71-74) is modelled.
- vectorDB.py and generate_summary.py are not part of this model. vectorDB.py builds the document store from a JSON file. generate_summary.py reads that store, asks an LLM for a summary of the top documents for a fixed query, and writes the summary to a Markdown file. Both are calls into external services plus file I/O.
- Strings.Lower: maps only ASCII `A`-`Z`. Python's `str.lower` also maps other Unicode letters, and some of those lower to text that contains ASCII letters. So a non-ASCII letter in the query can change which rule Python picks. For example, Python lowers U+0130 'İ' to 'i' followed by U+0307. It therefore detects "hari ini" in "HARI INİ bulan ini" and returns that query unchanged. The model does not detect "hari ini" there; it takes the "bulan ini" rule and rewrites the query. Lowering can also change the length of a string in Python, which the model does not capture.
- Strings.ReplaceAll: requires a non-empty pattern. Python's empty-pattern `replace` inserts between characters, but the source only replaces the three fixed phrases.
- DateFormat.FormatDate: uses English month names (the C locale). `%B` follows the process locale, which is not modelled.
- DateFormat.FourDigits: renders `%Y` as four zero-padded digits. Some C libraries print fewer digits for years below 1000.
- Calendar.RelativeWeekday: covers only the `weekday=` argument of `relativedelta`. The other relativedelta fields are not used by the source.
