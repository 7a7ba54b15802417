# Verified models of the AirHost clients and configuration loader

This project models the self-contained algorithms of AirHost's web app, mobile app and
backend start-up code, and proves what they promise. `dafny verify dfyconfig.toml` checks
all of it.

Code that works by updating variables is modelled by methods with loops or by classes, and
each of those is proved equal to a specification function. The theorems are lemmas about
the specification functions, for all inputs, all runs or all interleavings.

| file | models |
|---|---|
| `EcmaDate.dfy` | ECMAScript day arithmetic (ECMA-262, section 21.4.1): the proleptic Gregorian calendar on day numbers, `Date.UTC`, `setUTCDate`, the date part of `toISOString` |
| `AvailabilityCalendar.dfy` | the availability calendar: booked-day set, month grids, the component |
| `EventStream.dfy` | the mobile app's incremental event-stream scanner, the server's frames, and the interpreter of the HTML Living Standard, sections 9.2.5 and 9.2.6, which the web app's `EventSource` follows |
| `StreamPieces.dfy`, `ReaderAgreement.dfy` | when that scanner and that interpreter deliver the same |
| `Browser.dfy`, `MobileRealtime.dfy`, `WebRealtime.dfy` | the two reconnect automata and what they leave pending in the JavaScript environment |
| `AdminOutbox.dfy` | optimistic removal with rollback on the dead-letter page |
| `Config.dfy` | `getSlice` and `parseThresholds` |
| `I18n.dfy`, `Interpolation.dfy` | translation lookup, locale detection, and the two interpolations with one variable and with several |
| `UrlSearchParams.dfy`, `ExploreQuery.dfy` | saved-search queries, down to the percent-coded text (URL Standard, section 5) |
| `Pagination.dfy`, `ExplorePaging.dfy`, `HostListingLookup.dfy` | limit and offset pages, infinite scrolling, and the walk over a host's listings |
| `ListingPhotos.dfy` | photo reordering and the backend's check of the requested order |
| `Text.dfy`, `Sequences.dfy` | strings: searching, joining, ordering, numerals; sequences: taking out, putting back, repetition |

## Where the code does not do what one would expect

Each of these is proved with the exact condition under which the code is right.

- `Date.UTC` reads the years 0 to 99 as 1900 to 1999, so a month grid is laid out wrongly
  exactly for those years (`LayoutRightIff`).
- The ten-character day key is unique and ordered only in the years 0 to 9999; outside them
  days collide (`KeyCollision`), and the past flag is right for a day exactly when its
  year is at most 9999 (`PastIff`). The booked flag is right in every year.
- The mobile effect stalls, and stalls for good, exactly when the token getter rejects
  (`MobileRealtime.OneActivity`); the web effect never does.
- The scanner trims payloads, drops empty ones and does not end lines at a CR; the standard's
  interpreter differs in all three, and joins the data lines of a message. On any frames in
  any chunks the two deliver the same exactly when every data line is a trimmed text that is
  not empty, with at most white space behind it that begins with a CR, and every data line
  but the last of its message has two CRs in a row in that white space
  (`ReadersAgreeIff`). Without CRs in the data that is: at most one data line per message,
  trimmed and not empty (`CRFreeReadersAgreeIff`). For payloads that are trimmed and not
  empty it is: one data line per message and no CR (`ScannerMatchesInterpreterIff`).
- A failed retry is documented to put its row back in the original slot. In every run, with
  any number of overlapping retries, successes and failures, it does so exactly when the
  index it was removed from, capped by the length of the list, is the number of shown rows
  that precede it on the loaded page (`FailKeepsOrderIff`; `StaysInOrderIff` for whole runs,
  `SettlementRestoresIff` for the list that is left in the end). Properly nested failures
  always meet this (`NestedFailuresRestore`). Two retries failing in start order do so only
  if the first was started on the last row (`StartOrderRestoresIff`), and a retry failing
  after a later one has succeeded only if the row of the later one stood behind it or it was
  the last row itself (`FailAfterSuccessIff`).
- `replaceAll` expands the patterns `$$`, `$&`, `` $` `` and `$'` in a value, split and join
  does not; the two forms agree on every message exactly when the value has no such
  pattern (`FormsAgreeIff`).
- Variables are replaced one after another, so a value can bring in the placeholder of a
  later one. Every listing of the variables gives the same text, on every flat template,
  exactly when no value contains the placeholder of another variable or ends with a
  beginning of it; variables whose value is their own placeholder do no harm
  (`AllOrdersAgreeIff`, and `TwoVariablesIff` for one order of two). The values that may
  precede any variable are those without an opening brace (`AnyVariableMayFollowIff`).
- If no value has an opening brace, the two providers agree on every flat template exactly
  when no value has a replacement pattern (`ProvidersAgreeIff`).
- The mobile locale normalisation is documented as identical to the web's. It differs
  exactly on tags that start with `pt_br` in some case (`NormalisationsAgreeIff`).
- A saved search reads back as the object it was written from, in the same order, except that
  numbers have become strings and arrays of one string that string, and that empty strings,
  null, undefined, empty arrays and a `__proto__` key are gone (`QueryReadsBack`). So exactly
  the objects without any of these survive (`QueryRoundTripIff`).
- An arriving page is appended to whatever list is shown. In any state the list stays a
  first part of the results of the search it shows exactly when the page was fetched for
  that search and from where the list ends, or from beyond the results (`PageIsSafeIff`);
  runs whose pages all fit keep the list right (`FittingPagesShow`), and the response to a
  search always sets it right again (`FirstResponseShows`). A failed request leaves the list
  alone (`QuietRunKeepsTheList`), so after a search that failed, scrolling appends pages of
  the new search to the old list (`FailedSearchMixes`, `FailedSearchIsSafeIff`), a search
  started while a page is in flight gets that page appended to its results
  (`RaceIsSafeIff`), and of two overlapping searches answered out of order the shown one
  gets a page of the other (`OverlapIsSafeIff`).

## Premises

- Calendar: bookings carry `YYYY-MM-DD` strings, as the component's header says.
- Automata: the `readystatechange` and `error` events of a failed request run in one task,
  as the XMLHttpRequest standard has it; `LateErrorEventForks` shows that this is needed.
  A closed `EventSource` fires no further event.
- Dead-letter page: the loaded rows have distinct ids; React runs a state updater once, before the request it precedes
  settles; no page is loaded while a retry is in flight.
- Interpolation: templates are flat, that is, `{name}` placeholders and text without an
  opening brace; variable names have no braces. Values are arbitrary except where a row
  says otherwise.
- Event streams: no data line contains a line feed, and comment lines contain no CR either, as
  the server's two comments do not.
- Photo form: a press is answered before the next one; the form does not enforce that.
- Paging: the catalogue does not change, and state is committed between events.
- `IDsByHost`: the listings and their order do not change during the walk. The PostgreSQL
  repository orders them; the in-memory one iterates over a Go map and does not. Both serve
  as many listings per page as are asked for; the contract also says what the walk would
  return from a repository with smaller pages.

## Model

| member | source | states |
|---|---|---|
| EcmaDate.EcmaFormula | web/src/components/AvailabilityCalendar.jsx:24-25 | the closed formula of ECMA-262 for the first day of a year counts the days of the years between it and 1970, for all years |
| EcmaDate.YearOf | web/src/components/AvailabilityCalendar.jsx:63 | the year of a day is the one whose first day is not after it and whose successor's is |
| EcmaDate.CivilSteps | web/src/components/AvailabilityCalendar.jsx:14 | consecutive day numbers are consecutive calendar dates across month ends, leap days and year ends, for all integers |
| EcmaDate.EpochIsDayZero | web/src/components/AvailabilityCalendar.jsx:14 | day 0 is 1970-01-01, which with the previous row fixes the date of every day |
| EcmaDate.CivilOfDayOf | web/src/components/AvailabilityCalendar.jsx:24-32 | year, month and date of a day number are those it was made from |
| EcmaDate.WeekDaySteps | web/src/components/AvailabilityCalendar.jsx:26-27 | weekdays advance with the days from Thursday 1970-01-01 |
| EcmaDate.MakeDayInMonth | web/src/components/AvailabilityCalendar.jsx:32 | for any year and month index a date within the month is that date of the month the index denotes |
| EcmaDate.DayZeroIsLastDay | web/src/components/AvailabilityCalendar.jsx:25 | day 0 of the next month is the last day of the month and its date is the Gregorian month length, for any year and month index |
| EcmaDate.SetUTCDateAdvances | web/src/components/AvailabilityCalendar.jsx:14 | setting the date to the date plus one adds exactly one day and keeps the time of day |
| EcmaDate.KeyOrder | web/src/components/AvailabilityCalendar.jsx:5-7 | in the years 0 to 9999 string order on keys is chronological order and keys are unique |
| EcmaDate.KeyOutsideFourDigitYears | web/src/components/AvailabilityCalendar.jsx:5-7 | outside those years a key sorts before every four-digit key, equals none, and is shared by its whole month |
| EcmaDate.KeyCollision | web/src/components/AvailabilityCalendar.jsx:5-7 | every day outside the years 0 to 9999 shares its key with another day, and every day a time value can have with another such day |
| EcmaDate.KeyFields | web/src/components/AvailabilityCalendar.jsx:5-7 | a four-digit-year key spells out year, month counted from 1 and date, with dashes between |
| EcmaDate.ParseDayOfKey | web/src/components/AvailabilityCalendar.jsx:5-13 | reading a key as a date gives its day back |
| EcmaDate.KeyOfParseDay | web/src/components/AvailabilityCalendar.jsx:5-13 | a string that names a day is that day's key |
| EcmaDate.MakeFullYearMovesWeekDay | web/src/components/AvailabilityCalendar.jsx:24 | the years that Date.UTC shifts by 1900 are exactly those whose months start on another weekday than requested |
| AvailabilityCalendar.BuildBookedSet | web/src/components/AvailabilityCalendar.jsx:9-19 | the nested loops end and compute the union of the keys of all half-open ranges |
| AvailabilityCalendar.AddRange | web/src/components/AvailabilityCalendar.jsx:12-16 | the roll-over loop ends and adds the key of every night of one range, none for an invalid or empty one |
| AvailabilityCalendar.KeyIsBookedIff | web/src/components/AvailabilityCalendar.jsx:1-3 | a day's key is in the booked set exactly when a booking occupies the day, check-out day excluded, for days of any year |
| AvailabilityCalendar.SharedKeyIffOverlap | README.md:70-71 | two bookings share no key exactly when their ranges do not overlap |
| AvailabilityCalendar.BookedSetSize | web/src/components/AvailabilityCalendar.jsx:9-19 | the set has at most as many keys as there are nights, and exactly as many if and only if no two bookings overlap |
| AvailabilityCalendar.RenderMonth | web/src/components/AvailabilityCalendar.jsx:23-38 | the two cell loops produce the month grid, or what an invalid date makes of it |
| AvailabilityCalendar.GridMeaning | web/src/components/AvailabilityCalendar.jsx:26-38 | every date of the month appears once, in the column of its weekday, column 0 being Monday, behind blank cells, booked and past exactly when it is |
| AvailabilityCalendar.ColumnsStartOnMonday | web/src/components/AvailabilityCalendar.jsx:27 | column 0 holds Mondays |
| AvailabilityCalendar.RenderThrowsIff | web/src/components/AvailabilityCalendar.jsx:24-32 | rendering throws exactly for the month that begins before the first day of a time value and ends on or after it; a month that ends outside those days has no day cells |
| AvailabilityCalendar.ShownInTwentiethCentury | web/src/components/AvailabilityCalendar.jsx:24-32 | for the years 0 to 99 the month shown is that of the year 1900 later |
| AvailabilityCalendar.PastIff | web/src/components/AvailabilityCalendar.jsx:35 | comparing keys tells whether a day precedes today exactly when its year is at most 9999 |
| AvailabilityCalendar.OffsetsChain | web/src/components/AvailabilityCalendar.jsx:27 | a month's offset is the previous offset plus the previous length modulo 7, for any year and month index |
| AvailabilityCalendar.LayoutRightIff | web/src/components/AvailabilityCalendar.jsx:24-27 | offset and length are those of the requested month exactly when the year is not in 0 to 99 |
| AvailabilityCalendar.RenderedMonthsAt | web/src/components/AvailabilityCalendar.jsx:62-66 | the component renders exactly when every month does, grid i being that of month index month + i |
| AvailabilityCalendar.RenderCalendar | web/src/components/AvailabilityCalendar.jsx:56-66 | the component's loop computes those grids from the bookings and two clock readings |
| AvailabilityCalendar.CalendarShowsCivilMonths | web/src/components/AvailabilityCalendar.jsx:62-66 | month indices past 11 show the months of the following years |
| AvailabilityCalendar.CalendarIsRight | web/src/components/AvailabilityCalendar.jsx:56-66 | every rendered grid is right: blanks first, then every date in the column of its weekday, Mondays first, booked and past exactly when it is |
| EventStream.Reader.OnReadyStateChange | mobile/src/api/RealtimeContext.js:76-91 | one event moves the offset past the last complete line and emits the payloads of the new complete lines |
| EventStream.ChunkingIsInvisible | mobile/src/api/RealtimeContext.js:73-89 | for every growing sequence of texts the emitted payloads are exactly those of the complete lines, in order, each once, and the offset is just past a line break |
| EventStream.AfterLastLine | mobile/src/api/RealtimeContext.js:82-84 | the offset the scanner reaches is 0 or just past a line feed |
| EventStream.SpacesAre | mobile/src/api/RealtimeContext.js:86 | the characters `trim` removes |
| EventStream.NamedEventIsNoMessage | web/src/context/RealtimeContext.jsx:57-60 | a message of another type does not reach `onmessage` |
| StreamPieces.PayloadOfLine | mobile/src/api/RealtimeContext.js:85-88 | a line gives the text behind `data:` without the white space around it, and nothing if that is empty or the line begins otherwise |
| EventStream.AbortEmitsNothing | mobile/src/api/RealtimeContext.js:101-103 | the event fired by cleanup's abort emits nothing and keeps the offset |
| EventStream.ServerWrites | backend/internal/interfaces/http/handler/realtime_handler.go:60-63 | the frames of the handler are frames of the modelled dialect |
| EventStream.FramingRoundTrip | mobile/src/api/RealtimeContext.js:76-89 | framed payloads, with comments and blank lines anywhere between them and cut into any chunks, are read back unchanged |
| EventStream.InterpretFrames | web/src/context/RealtimeContext.jsx:57-60 | the standard's interpreter dispatches one message per CR-free frame, its data lines joined by LF |
| EventStream.ScannerMatchesInterpreterIff | mobile/src/api/RealtimeContext.js:80-88 | on frames whose payloads are trimmed and not empty and whose comments contain no CR, scanner and interpreter deliver the same payloads exactly when all messages have one data line and no payload contains a CR |
| ReaderAgreement.ReadersAgreeIff | mobile/src/api/RealtimeContext.js:80-89 | on frames with any LF-free data lines and CR-free comments, in any chunks, they deliver the same exactly when every data line is a trimmed text that is not empty, then at most white space beginning with a CR, with two CRs in a row there if another data line of the message follows |
| ReaderAgreement.CRFreeReadersAgreeIff | mobile/src/api/RealtimeContext.js:86-88 | without CRs exactly when every message has at most one data line, trimmed and not empty |
| MobileRealtime.Effect.CallScheduleReconnect | mobile/src/api/RealtimeContext.js:55-61 | arms a timer unless stopped or one is armed |
| MobileRealtime.Effect.OnTokenResolved | mobile/src/api/RealtimeContext.js:65-94 | the rest of connect after the token arrives is one step of the automaton |
| MobileRealtime.Effect.OnRequestDone | mobile/src/api/RealtimeContext.js:90-92 | a finished request's handlers are one step of the automaton |
| MobileRealtime.Effect.OnUnmount | mobile/src/api/RealtimeContext.js:98-108 | cleanup, its abort callback included, is one step of the automaton |
| MobileRealtime.StoppedIffUnmounted | mobile/src/api/RealtimeContext.js:98-100 | unmounting, and nothing else, stops the effect |
| MobileRealtime.NextActivity | mobile/src/api/RealtimeContext.js:55-108 | after any events, a token opens a stream, no token or a finished request arms a timer, a timer asks for a token, a rejection leaves nothing, unmount closes stream and timer, and what is not pending, live or armed has no effect |
| MobileRealtime.StepKeepsInv | mobile/src/api/RealtimeContext.js:55-108 | every event keeps the invariant of the automaton |
| MobileRealtime.OneActivity | mobile/src/api/RealtimeContext.js:55-109 | after any events a mounted effect has exactly one of pending token, live stream and armed timer, none if and only if a token request was rejected; an unmounted one has no stream and no timer |
| MobileRealtime.NoActionAfterUnmount | mobile/src/api/RealtimeContext.js:98-108 | nothing after unmount opens a stream or arms a timer |
| MobileRealtime.Recovers | mobile/src/api/RealtimeContext.js:55-95 | unless a token request was rejected, the armed timer and a token lead back to one live stream |
| MobileRealtime.LateErrorEventForks | mobile/src/api/RealtimeContext.js:90-92 | a further error event while a token is pending would leave two activities |
| WebRealtime.Effect.OnTokenSettled | web/src/context/RealtimeContext.jsx:48-57 | the rest of connect after the refresh settles is one step of the automaton |
| WebRealtime.Effect.OnStreamError | web/src/context/RealtimeContext.jsx:75-80 | the error handler is one step of the automaton |
| WebRealtime.Effect.OnUnmount | web/src/context/RealtimeContext.jsx:84-88 | cleanup is one step of the automaton |
| WebRealtime.StoppedIffUnmounted | web/src/context/RealtimeContext.jsx:84-88 | unmounting, and nothing else, stops the effect |
| WebRealtime.NextActivity | web/src/context/RealtimeContext.jsx:46-88 | after any events, a refresh that leaves a token opens a stream, one that does not or a failing stream arms a timer, a timer starts a refresh, unmount closes stream and timer, and what is not pending, live or armed has no effect |
| WebRealtime.StepKeepsInv | web/src/context/RealtimeContext.jsx:46-88 | every event keeps the invariant of the automaton |
| WebRealtime.OneActivity | web/src/context/RealtimeContext.jsx:46-88 | after any events exactly one activity while mounted, no stream and no timer afterwards, and the stream the error handler closes is the one that failed |
| WebRealtime.NoActionAfterUnmount | web/src/context/RealtimeContext.jsx:84-88 | nothing after unmount opens a stream or arms a timer |
| WebRealtime.Recovers | web/src/context/RealtimeContext.jsx:46-81 | a mounted effect can always get back to one live stream |
| AdminOutbox.Page.StartRetry | web/src/pages/AdminOutbox.jsx:86-107 | the optimistic part of retry is one step of the page |
| AdminOutbox.Page.Settle | web/src/pages/AdminOutbox.jsx:108-128 | success or rollback of a retry is one step of the page |
| AdminOutbox.RowsAreConserved | web/src/pages/AdminOutbox.jsx:83-129 | across every interleaving each row is shown, held by a request or requeued exactly as often as before |
| AdminOutbox.NoDuplicateRow | web/src/pages/AdminOutbox.jsx:97-120 | from a page with distinct ids no id is ever shown twice |
| AdminOutbox.MarkersAreExact | web/src/pages/AdminOutbox.jsx:207-213 | in runs driven by the buttons the in-flight markers are exactly the ids in flight and no shown row is marked |
| AdminOutbox.NestedFailuresRestore | web/src/pages/AdminOutbox.jsx:112-120 | properly nested failing retries, any number of them, restore the list exactly |
| AdminOutbox.ReverseOrderRestores | web/src/pages/AdminOutbox.jsx:97-120 | any retries failing in the reverse of their start order restore the list exactly |
| AdminOutbox.SlotIff | web/src/pages/AdminOutbox.jsx:115-118 | a row put among others of its page leaves them in page order exactly when they were before and it went behind as many as precede it |
| AdminOutbox.FailKeepsOrderIff | web/src/pages/AdminOutbox.jsx:112-120 | in every run, with any calls overlapping and settled in any order, a failure leaves the list in page order exactly when it was before and the clamped index is the number of shown rows that precede the row |
| AdminOutbox.StaysInOrderIff | web/src/pages/AdminOutbox.jsx:86-128 | a whole run stays in page order exactly when every failure in it finds its row's slot |
| AdminOutbox.SettledListIff | web/src/pages/AdminOutbox.jsx:112-120 | with no call in flight the list is the loaded page without the requeued rows exactly when it is in page order |
| AdminOutbox.SettlementRestoresIff | web/src/pages/AdminOutbox.jsx:83-128 | however the calls settle after the last start, the list ends as the loaded page without the requeued rows exactly when it was in order at that start and every later failure finds its slot |
| AdminOutbox.StartOrderRestoresIff | web/src/pages/AdminOutbox.jsx:112-120 | two retries failing in start order restore the list exactly when the first was started on the last row |
| AdminOutbox.FailAfterSuccessIff | web/src/pages/AdminOutbox.jsx:108-120 | a retry failing after a later one succeeded goes back to its place exactly when the later row stood behind it or it was the last row |
| Config.ParseThresholds | backend/internal/config/config.go:450-490 | the byte loop computes the entries of the comma-separated pieces, later ones overriding earlier ones |
| Config.ParseEntry | backend/internal/config/config.go:469-487 | the colon search and the checks add at most one entry |
| Config.TrimSpaces | backend/internal/config/config.go:463-468 | the trimming loops remove the spaces at both ends |
| Config.GetSlice | backend/internal/config/config.go:419-444 | the byte loop computes the non-empty trimmed items, the fallback being used exactly when there are none |
| Config.ThresholdsCompose | backend/internal/config/config.go:446-449 | parsing `a,b` is parsing `a` overridden by parsing `b`, for all strings |
| Config.ThresholdsOfOneIff | backend/internal/config/config.go:446-487 | a text without commas parses to one threshold exactly when it is spaces, a key, a colon, an optional sign, digits and spaces with an amount in 0 to 2^63-1, and to nothing exactly when it is no such text |
| Config.MalformedEntryIsIgnored | backend/internal/config/config.go:446-449 | an entry that contributes nothing affects no other |
| Config.PrintThenParse | backend/internal/config/config.go:446-449 | a printed map, entries in any order with any space padding, parses to the map |
| Config.ParsedMapIsGood | backend/internal/config/config.go:469-487 | every parsed key is non-empty, free of commas and colons and does not start with a space; every amount is in 0 to 2^63-1 |
| Config.ParseableIffGood | backend/internal/config/config.go:450-490 | those maps are exactly the ones some text parses to |
| Config.ItemsCompose | backend/internal/config/config.go:419-444 | the items of `a,b` are those of `a` followed by those of `b` |
| Config.ItemsOfPadded | backend/internal/config/config.go:425-436 | an item with spaces around it is that item, and spaces alone are none |
| Config.ItemsNormalForm | backend/internal/config/config.go:425-436 | items are non-empty, comma-free and trimmed, and joining them gives a value with the same items |
| I18n.Lookup | mobile/src/i18n/I18nContext.js:112-120 | walking the chain is one lookup in the merged dictionary, giving the key itself exactly when it is absent or maps to itself |
| I18n.FallbackOrder | web/src/i18n/I18nContext.jsx:18-28 | pt-BR falls back to pt and that to en, pt and es to en, other languages are en, and a key none of them has is shown as it is |
| I18n.MobileT | mobile/src/i18n/I18nContext.js:110-129 | lookup followed by replacing the variables one after another |
| I18n.WebT | web/src/i18n/I18nContext.jsx:64-83 | the same with replaceAll and its replacement patterns |
| I18n.SplitJoinReplaces | mobile/src/i18n/I18nContext.js:124 | split and join replaces every occurrence by the value as it is |
| I18n.PatternsMean | web/src/i18n/I18nContext.jsx:77 | what the four patterns put in place of two occurrences: a dollar sign, the placeholder, the original text before it, the original text after it |
| I18n.ProvidersAgree | web/src/i18n/I18nContext.jsx:75-79 | both providers give the same text if no value contains a replacement pattern |
| I18n.FormsAgreeIff | web/src/i18n/I18nContext.jsx:77 | for every name and value the two forms agree on every message exactly when the value contains no replacement pattern |
| Interpolation.OneVariable | mobile/src/i18n/I18nContext.js:124 | one variable with any value fills exactly its placeholders, wherever the text between them does not meet its placeholder |
| Interpolation.NamedValue | mobile/src/i18n/I18nContext.js:124 | in a message `{name}` becomes the value |
| Interpolation.SequentialIsSimultaneous | mobile/src/i18n/I18nContext.js:121-126 | replacing the variables one after another is substituting all at once if no value meets the placeholder of a later variable |
| Interpolation.TwoVariablesIff | mobile/src/i18n/I18nContext.js:121-126 | for two variables, on every flat template, exactly then, or if the second's value is its own placeholder |
| Interpolation.AnyVariableMayFollowIff | mobile/src/i18n/I18nContext.js:121-126 | a value may precede any other variable, with any value, on any flat template, exactly when it has no opening brace |
| Interpolation.OrderDoesNotMatter | mobile/src/i18n/I18nContext.js:121-126 | two listings of one assignment give the same text, that of filling in all at once, if no value meets another variable's placeholder |
| Interpolation.AllOrdersAgreeIff | mobile/src/i18n/I18nContext.js:121-126 | all listings of an assignment agree on all flat templates exactly then, a variable whose value is its own placeholder aside |
| Interpolation.BracedValueOrderMatters | mobile/src/i18n/I18nContext.js:121-126 | an example: the texts that the two orders give when one value is the other's placeholder |
| Interpolation.ProvidersAgreeIff | web/src/i18n/I18nContext.jsx:75-79 | for any number of variables whose values have no opening brace, the providers agree on every flat template exactly when no value has a replacement pattern |
| I18n.LowerAt | mobile/src/i18n/I18nContext.js:65 | lower-casing changes the letters A to Z and nothing else |
| I18n.NormalisedLocale | mobile/src/i18n/I18nContext.js:61-71 | the locale of a tag by its beginning, in any case: pt-br or pt_br, other pt, es, English for the rest |
| I18n.DetectedLocale | web/src/i18n/I18nContext.jsx:36-44 | a stored supported locale wins, else the browser language by its beginning |
| I18n.NormalisationsAgreeIff | mobile/src/i18n/I18nContext.js:61-71 | mobile and web choose the same locale exactly for tags that do not start with pt_br in some case |
| UrlSearchParams.PlainQueryText | mobile/src/screens/ExploreScreen.js:17 | letters, digits and `* - . _` are written as they are, name and value joined by an equals sign |
| UrlSearchParams.EncodedBytes | mobile/src/screens/ExploreScreen.js:17 | a space is written as a plus sign, other bytes as a percent sign and two upper-case hexadecimal digits |
| UrlSearchParams.DecodedText | mobile/src/screens/ExploreScreen.js:20 | codes are read in either case, a plus sign is a space, an incomplete code stays |
| UrlSearchParams.ParsedText | mobile/src/screens/ExploreScreen.js:20 | pairs end at ampersands and are cut at the first equals sign; empty stretches are skipped |
| UrlSearchParams.ParseSerialize | mobile/src/screens/ExploreScreen.js:12-20 | any list of byte-string names and values survives being written as query text and parsed |
| ExploreQuery.ParamsToPairs | mobile/src/screens/ExploreScreen.js:11-17 | the loops append the values of every entry under its key |
| ExploreQuery.PairsToParams | mobile/src/screens/ExploreScreen.js:21-26 | the loop builds the object from the distinct names in order of first occurrence |
| ExploreQuery.ParamsToQuery | mobile/src/screens/ExploreScreen.js:11-18 | the query is the serialised list of those pairs |
| ExploreQuery.QueryToParams | mobile/src/screens/ExploreScreen.js:19-27 | the object is built from the pairs the query text parses to |
| ExploreQuery.ArrayIndexIff | mobile/src/screens/ExploreScreen.js:13 | the keys that come first in property order are the decimal numerals below 2^32 - 1 |
| ExploreQuery.ReadEntryIff | mobile/src/screens/ExploreScreen.js:21-26 | the entries read from any list of pairs are its names but `__proto__`, each with its values wherever they stand |
| ExploreQuery.FirstOccurrences | mobile/src/screens/ExploreScreen.js:23-24 | names come in order of first occurrence and values in order |
| ExploreQuery.FromPairsIsObject | mobile/src/screens/ExploreScreen.js:21-26 | the result has distinct keys in property order, strings or arrays of at least two, and no own `__proto__` |
| ExploreQuery.QueryReadsBack | mobile/src/screens/ExploreScreen.js:11-27 | every object reads back in order with numbers as strings and arrays of one as their element, without empty strings, null, undefined, empty arrays and `__proto__` |
| ExploreQuery.QueryRoundTripIff | mobile/src/screens/ExploreScreen.js:11-27 | an object survives writing and reading exactly when it is in normal form |
| ExploreQuery.RewriteIsIdempotent | mobile/src/screens/ExploreScreen.js:11-27 | for every query text, reading and writing it reaches a fixed point in one step |
| ExplorePaging.Screen.Load | mobile/src/screens/ExploreScreen.js:86-93 | starting a search is one step of the screen |
| ExplorePaging.Screen.LoadMore | mobile/src/screens/ExploreScreen.js:107-112 | reaching the end is one step of the screen, guarded by the flags and the total |
| ExplorePaging.Screen.Settle | mobile/src/screens/ExploreScreen.js:94-119 | a response or a failure is one step of the screen |
| ExplorePaging.QuietRunKeepsTheList | mobile/src/screens/ExploreScreen.js:86-119 | searches, scrolls and failures leave list, total and shown search alone; only responses change them |
| ExplorePaging.RejectionEndsWaiting | mobile/src/screens/ExploreScreen.js:98-119 | a failed request takes back its own flag and nothing else |
| ExplorePaging.FirstResponseShows | mobile/src/screens/ExploreScreen.js:94-97 | from any state the response to a search makes the list a first part of that search's results |
| ExplorePaging.PageIsSafeIff | mobile/src/screens/ExploreScreen.js:112-114 | in any state an arriving page keeps the list a first part of the shown search's results, for every catalogue agreeing with the list, exactly when it was fetched for that search from the list's end or from beyond the results |
| ExplorePaging.FittingPagesShow | mobile/src/screens/ExploreScreen.js:86-120 | in any run, however searches and pages overlap, the list is a first part of the shown search's results while the arriving pages fit |
| ExplorePaging.ListIsAPrefix | mobile/src/screens/ExploreScreen.js:86-120 | after any orderly run the list is a first part of the shown search's results without repetitions, with one fetch in flight at most |
| ExplorePaging.PagesMakeProgress | mobile/src/screens/ExploreScreen.js:107-114 | every page that arrives leaves strictly less to load |
| ExplorePaging.ScrollingLoadsEverything | mobile/src/screens/ExploreScreen.js:105-106 | n scrolls load n pages, and enough of them exactly the full results |
| ExplorePaging.ExtensionIsSafeIff | mobile/src/screens/ExploreScreen.js:107-113 | scrolling keeps the list a first part of one search's results exactly when the shown search is the current one |
| ExplorePaging.FailedSearchMixes | mobile/src/screens/ExploreScreen.js:86-114 | after a search that failed, the next scroll appends the page of the new search behind the old list and takes over the new total |
| ExplorePaging.FailedSearchIsSafeIff | mobile/src/screens/ExploreScreen.js:86-114 | that keeps the list right exactly when the failed search was the one shown |
| ExplorePaging.RaceIsSafeIff | mobile/src/screens/ExploreScreen.js:86-113 | a search overtaking a page in flight spoils its list except when the same search is repeated with exactly one page shown |
| ExplorePaging.OverlapIsSafeIff | mobile/src/screens/ExploreScreen.js:86-114 | on a settled screen two overlapping searches, the later answered first and scrolled, leave the list right exactly when they are the same search |
| HostListingLookup.IDsByHost | backend/cmd/api/main.go:927-945 | the walk ends and without errors returns every id once, in order, for any count, exactly when the repository serves pages of 500 or all listings fit on one of its pages; on an error it returns exactly the ids before it |
| Pagination.NewPageIsNormal | backend/internal/domain/shared/page.go:10-18 | limits outside 1 to 100 become 20, negative offsets 0, and nothing else changes |
| HostListingLookup.NewPageWouldTruncate | backend/internal/domain/shared/page.go:10-18 | were the request normalised, its limit would be 20, and a page would hold all listings exactly when there are at most 20 |
| ListingPhotos.ReorderPhotos | backend/internal/domain/property/property.go:479-512 | an order is accepted exactly when it is a permutation of the ids, and then the photos stand in that order, numbered from 0 |
| ListingPhotos.Form.MovePhoto | mobile/src/screens/HostListingFormScreen.js:163-175 | the swapped order is accepted; outside the list or offline nothing changes |
| ListingPhotos.Form.MakeCover | mobile/src/screens/HostListingFormScreen.js:180-190 | the cover order is accepted for a photo of the listing; otherwise nothing changes |
| ListingPhotos.MovedSwaps | mobile/src/screens/HostListingFormScreen.js:163-167 | a move within the list exchanges two photos and leaves the others, any other move changes nothing |
| ListingPhotos.RightIsLeftOfNext | mobile/src/screens/HostListingFormScreen.js:155-167 | the right arrow of a photo is the left arrow of the next, which also takes it back |
| ListingPhotos.CoverIsPermutationIff | mobile/src/screens/HostListingFormScreen.js:181-182 | the cover order is a permutation exactly when the photo is one of the listing's |
| ListingPhotos.CoverIsLeftPresses | mobile/src/screens/HostListingFormScreen.js:177-179 | making photo i the cover is i presses of the left arrow and keeps the order of the others |
| ListingPhotos.EveryOrderIsReachable | mobile/src/screens/HostListingFormScreen.js:155-175 | every permutation of the photos is reached by presses of the two arrows |
| ListingPhotos.PressesPermute | mobile/src/screens/HostListingFormScreen.js:163-175 | presses never lose or repeat a photo |

## Left out

- Booking, pricing, refunds, payouts, the outbox relay, payment routing, webhooks and rate limits of the backend: separate bounded contexts that none of the modelled code calls.
- The rest of `backend/cmd/api/main.go` and the other configuration getters: wiring and one-line conversions.
- Rendering, styles, navigation, translation dictionaries, storage and push notifications: user interface and platform calls.
- Parsing of payloads as JSON and their delivery to subscribers: a payload's text is what the model emits.
- Date strings other than `YYYY-MM-DD` and strings naming a day the month does not have: engines treat these differently; the model takes them as invalid dates.
- `parseFloat`-style conversions, the relative-time text, truncation and form validation: they would only add easy members.
- Text encodings: query strings are UTF-8 byte strings, configuration strings Go byte strings, other strings sequences of characters; query texts are taken to decode to valid UTF-8, other bytes would become U+FFFD; conversion between UTF-8 and UTF-16 is not modelled, nor is a leading question mark of a query text.
- The removal of empty parameters before a search request is sent: a query stands for the request as sent.
- AvailabilityCalendar.CalendarIsRight: covers renderings within the years 100 to 9999, because outside them LayoutRightIff and PastIff show the grid to be wrong or the keys to collide.
- ExplorePaging.ListIsAPrefix: requires orderly runs for its bound of one fetch in flight; the first part holds in all runs whose pages fit (FittingPagesShow), and PageIsSafeIff shows that it needs them to.
- ReaderAgreement.ReadersAgreeIff: leaves out comments that contain a CR, which the interpreter takes for the end of the line; the server writes none.
- ListingPhotos.Form.MovePhoto: one press with its answer; presses sent while another is unanswered start from the same photos and are not modelled.
