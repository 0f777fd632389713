# GNUstep Base: time zones, composed characters, and the name server

Three parts of GNUstep Base hold algorithms whose correctness is not obvious from
reading them. This project models them in Dafny 4.11 and proves what they are for.

- **The time-zone engine** (`Source/tzdb.h`). Local time type tables are decoded from
  TZif files or unrolled from POSIX TZ strings; times are looked up in them, folded by
  400-year cycles outside them, and broken down into calendar fields with leap seconds.
- **Composed character sequences** (`Source/GSeq.h`). Sequences are decomposed and their
  marks put in order in place; they are compared by that form, and searched literally.
- **The gdomap name server** (`Tools/gdomap.c`). It keeps a sorted map from names to
  ports and a list of other servers, serves connections piece by piece without blocking,
  queues UDP messages, and exchanges probes with other servers.

The imperative code is modelled in its own form: classes and arrays changed in place by
loops, each method proved against a specification function or a property stated outright.
What the code promises is then proved of those specifications, for all inputs, all runs
and all times.

Run `dafny verify dfyconfig.toml` to check everything.

## How the parts fit together

| modules | content |
|---|---|
| `CArith`, `Calendar`, `CivilTime`, `CivilOrder`, `LeapSeconds`, `PosixTime` | C arithmetic, the Gregorian calendar, `timesub`, what its fields say |
| `Rules`, `RuleText`, `TzString`, `TzGrammar` | yearly rules and the moments they name; the text of TZ strings, and their grammar |
| `ZoneState`, `RuleTable`, `YearRules`, `YearCases` | `struct state`, the table of two rules, when it stands for them, and strings for which it does not |
| `LocalTime`, `TzParse` | `localsub`, `tzparse` |
| `UsualRules`, `UsualZones` | usual rules, from the string to the clock and the name, and two zones in numbers |
| `TzBytes`, `TzFile`, `TzSplice`, `TzRepeat`, `TzAbbrs`, `TzNames`, `TzFooter` | TZif blocks decoded; footers: transitions, types, abbreviations; repetition |
| `TzLoaded`, `TzLoad`, `TzLookup`, `TzEver` | what a file is loaded as, the loader, what lookups tell, and after the table's end |
| `TzWrite`, `TzWritten`, `TzAccepted`, `TzWhole`, `FooterOnly` | files written field by field, and what is loaded and shown of them |
| `FoldCases`, `LateFile` | when folding lands in a loaded table, and a file, byte by byte, with which it does not |
| `MarkOrder`, `MarkSorting`, `Decompose`, `CharNormal`, `CharOrder`, `CharSequence`, `Search` | the normal form, the order that comparing gives, `GSeq`, and literal search |
| `Bytes`, `Shifting`, `NameMap`, `NameTable`, `NameRuns`, `NameAnswers`, `NameList` | the name map, its requests and answers over whole runs, the NAMES reply |
| `Requests`, `Wire` | requests and replies, what each does to map and list, and their bytes |
| `Peers`, `PeerRuns`, `Probes`, `ProbeNet` | the list of servers and the probe exchange on a network |
| `Infos`, `Channels`, `Conversations`, `UdpQueue` | connections, whole conversations, the UDP queue |

## Results worth knowing

Each of these is a theorem of the project; where the code does less than its
documentation or its purpose suggests, the exact condition is proved, in both directions.

- *When local time follows the rule.* The rule is the last change not after a time, over
  the changes of all years (`YearRules.RuleInForce`), whatever the table holds. If some
  year is kept, the table is always filled to its 2000 entries
  (`TzParse.StopMeansFullOrNone`), and then localsub shows the type in force at every time,
  however far off, the seam below excepted, if and only if no kept year runs into the next
  and no year is lost (`YearRules.TableFollowsIff`, `TzParse.LocalTimeFollowsRule`). Both
  can be checked on one 400-year cycle (`RuleTable.PartedByCycle`, `YearRules.LostPeriod`).
  A year is lost if it is not kept and its changes matter: if its daylight time has no
  length and the year before left daylight time on, or if it lasts too long to be kept,
  unless it merely goes on while that of the kept year before is still on
  (`YearRules.Lost`). `XXX5YYY6,0/0,364/22:30` loses every common year: the code shows
  standard time where the rule says daylight time (`YearCases.LongYearsAreLost`).
- *Usual rules.* Take rules with daylight time every year, which ends before it begins
  again. Then localsub shows the clock, the kind and the name that they put in force at
  every time, but for that seam (`UsualRules.UsualRulesFollowed`, `UsualRules.UsualClock`),
  and has an answer exactly if tm_year can hold the year (`UsualRules.AnsweredIff`). By
  `EST5EDT`, without rules of its own, 1610000000 is Thursday, 7 January 2021, 1:13:20 EST
  (`UsualZones.EasternFields`); the changes of 2021 in New York and Sydney are given in
  seconds (`UsualZones.ChangesOf2021`, `UsualZones.EasternClock`, `UsualZones.SydneyClock`).
- *Fields are Seconds Since the Epoch.* By the formula of POSIX, with its own numbers, the
  fields give back the time with the offset added, whatever its 400-year cycle
  (`CivilTime.Timesub`, `PosixTime.FieldsArePosix`, `PosixTime.LocalIsPosix`).
- *The seam.* If the last year of the table and the first one left out touch, as years of
  `EST5EDT,0/0,J365/25` do, one class of instants is wrong, and only that: the last entry
  of the table and those whole 400-year cycles later
  (`YearRules.TableStandsForRule`, `YearCases.AllYearButTheSeam`).
- *Perpetual daylight time.* If no year is kept, the code shows daylight time for ever.
  The rule says so if and only if each year's daylight time ends when the next one's
  begins (`YearRules.PerpetualIff`). By `EST5EDT,J1/1,J1` it is never in force
  (`YearCases.EmptyYearsAreDropped`).
- *Zeller's congruence in C arithmetic* gives the calendar's weekday exactly when the year
  it starts from (begun in March) is not negative or is a leap year; for all others it is
  one day ahead (`Rules.ZellerIsCalendar`), and then `transtime` names another day
  (`Rules.Transtime`). tzparse calls it for 1770 and later only, where it is exact.
- *Rules that run into each other.* The full table is in order if and only if no kept
  year's changes run into those of the next, if that is kept too
  (`RuleTable.TableOrderedIff`). `XXX0YYY,J365/167,J1/-167` is accepted, and its table is
  not in order (`YearCases.AcrossOutOfOrder`). By the rule its daylight time is on for all
  but two weeks of each year; every lookup gives standard time, but for one class of
  instants (`YearCases.AcrossShowsStandard`).
- *When folding lands.* A full table of rules reaches over 400 years, whatever the rules
  (`RuleTable.FullTableSpan`), so that every time can be folded into it
  (`TzParse.RuleStateFoldable`). A table loaded from a file and marked for folding can be
  shorter if it is not in order. The branch at Source/tzdb.h:1842-1846, marked there as one
  that cannot happen, is then taken: every time can be folded if and only if the table has
  every second of 400 years, or does not repeat at an end with times beyond it
  (`LocalTime.LandsIff`, `FoldCases.LoadedLandsIff`). 1198 transitions in the file and the
  footer above make a table of which the last entry repeats one 400 years earlier, ten
  seconds before the time of the table's first; a second past its end localsub has no
  answer (`LateFile.LateBytesMiss`).
- *Which strings are TZ strings.* A string is accepted if and only if a grammar of names,
  offsets, days and times spells it, and it then means what its spelling means
  (`TzGrammar.AcceptedIffSpelt`). The grammar is POSIX's with what the code allows
  besides, such as 60 seconds, or a semicolon before the rules, though not right after a
  bare name, which it would be part of.
- *Leap seconds keep broken-down time strictly increasing*, among the times for which
  timesub has an answer, if and only if every inserted second among them comes at the end
  of a local minute (`LeapSeconds.OrderPreservedIffAligned`).
- *Files are read as they are written.* The files accepted are exactly those that can be
  written field by field by RFC 8536, any twenty bytes in front of a block and anything
  after the last one (`TzAccepted.AcceptedIffWritten`, `TzWhole.AcceptableIffWritten`). All
  that is written is loaded (`TzWhole.LoadsWhatIsWritten`) and shown
  (`TzWhole.WrittenIsShown`). A file that leaves everything to its footer shows what the
  footer's rules say, for ever in both directions (`FooterOnly.FooterIsAll`).
- *A loaded file* is a function of its bytes: whether it is accepted, its table, types,
  names and leap seconds, and whether its footer is used (`TzLoad.Load`). What lookups
  tell follows: the file's own types (`TzLookup.OwnTypes`), then offset and kind of the
  type that the footer's rules put in force, at the second that the footer's clock, which
  counts no leap seconds, has reached (`TzLookup.FooterInForce`, `TzSplice.ClockReached`);
  without leap seconds for ever, if the footer's part reaches over 400 years
  (`TzEver.FooterForEver`).
- *Abbreviations.* A file keeps its own abbreviations when a footer's are placed if and
  only if its characters end with a nul, or each of the footer's stands among them already
  or has no room (`TzNames.AbbrsKeptIff`). The loader does not ask for that nul: without it
  the last abbreviation grows by the first one placed. A footer's type gets another name
  than the footer gives it exactly if its name is found in that last abbreviation alone,
  and one after it is the first to be placed (`TzNames.PlacedIff`, `TzLookup.FooterTypes`):
  the characters `EST` and the footer `EST5EDT` give `ESTEDT` (`TzNames.GrownName`).
- *Decomposition is not always complete.* After a round the loop at Source/GSeq.h:112-151
  does not look again at the first unit of the first decomposition. It decomposes fully
  exactly when that unit is never itself composed (`Decompose.ExpandFullIff`,
  `Decompose.AlwaysSettlesIff`), which the tables in Source/Additions/unicode/decomp.h do
  not satisfy: U+01D5 stays U+00DC U+0304 (`Decompose.LeadStaysComposed`). Normalising
  twice is the same as once under exactly that condition
  (`CharNormal.NormalIdempotentIff`).
- *The counted nul tells sequences apart.* Sequences that decompose fully have the same
  normal form if and only if their decompositions agree up to the order and repetition of
  marks, and both or neither have a unit from U+00C0 up (`CharNormal.NormalIffNulFree`).
  U+212A decomposes to U+004B, and yet the two compare as different
  (`CharOrder.KelvinIsAfterK`).
- *Comparison is an order, or not.* Comparing sequences, whatever of them is marked as
  normalised, is transitive if and only if all that is marked is normal, and then it is the
  order of the normal forms (`CharOrder.OrdersIff`). With the marks that the code sets, this
  holds if and only if no decomposition in the tables begins with a composed unit
  (`CharOrder.CodeOrdersIff`). The tables fail it: what the code makes of U+01D5, marked,
  is the same as itself unmarked, which is the same as U+00DC U+0304, which comes before
  the first (`CharOrder.LeadBreaksOrder`). The culprit is the short cut for equal units
  (`CharOrder.ShortCutAgreesIff`).
- *Nobody is sent to a dead server.* Whoever is told a port by a lookup is told one that a
  local process registered for that name and type, that nothing has freed since, and that
  is in use now (`NameAnswers.LookupTells`, `NameAnswers.ToldWasRegistered`), and so is the
  client that reads the reply (`Wire.ClientIsToldTruly`).
- *Names.* The sorted array follows a finite map in every run (`NameRuns.Serve`), names do
  not interfere (`NameRuns.RunByName`), and a name stays with its process for as long as
  that is alive (`NameRuns.LiveNameIsHeld`). One request breaks the promise of REGISTER:
  port zero for a name whose other port can be bound takes the port from the name and is
  answered by zero (`NameRuns.PortZeroTakesTheName`).
- *Probing ends, and informs.* With any number of servers and any delay, loss and order, no
  more messages move than could at the beginning, unless a server starts probing
  (`ProbeNet.TrafficEnds`). Every reply was caused by a probe, and a probe and its reply
  leave each side listing the other's address for as long as what it heard is fresh
  (`ProbeNet.ReplyIsCaused`, `ProbeNet.ExchangeInforms`).

## Model

| member | source | states |
|---|---|---|
| CArith.IncrementOverflow | Source/tzdb.h:2051-2066 | overflow is reported exactly when the sum is no int, and then the number is left alone; the test itself does not overflow |
| CArith.IncrementOverflowTime | Source/tzdb.h:2068-2082 | the same for a 64-bit time |
| Calendar.LeapsStep | Source/tzdb.h:1916-1928 | the count of leap years through a year, less that through the year before, is 1 exactly for leap years, negative years included |
| Calendar.LeapsFloor | Source/tzdb.h:1916-1928 | the mirrored count for negative years is the Gregorian formula with floored quotients |
| Calendar.YearStartClosed | Source/tzdb.h:1972-1977 | days counted by year differences and leap counts are the days of the calendar, defined year by year |
| Calendar.YearStartPeriod | Source/tzdb.h:1828-1836 | 400 years are 146097 days, whole weeks, and SECSPERREPEAT seconds |
| CivilTime.FindLeap | Source/tzdb.h:1938-1955 | the correction in force at t, and whether t is itself an inserted second |
| CivilTime.LeapCorr | Source/tzdb.h:2084-2097 | the correction of the last record not after t, or 0 |
| CivilTime.GuessApproaches | Source/tzdb.h:1959-1971 | each guessed year comes strictly nearer to the year sought, from either side, and never passes it; so the loop ends |
| CivilTime.GuessFits | Source/tzdb.h:1965-1967 | the test for a guess that is no int fails only when the year sought is none |
| CivilTime.SplitYear | Source/tzdb.h:1957-1981 | the loop ends with the year of the day and the day within it, or fails exactly when the year is no int |
| CivilTime.CarrySeconds | Source/tzdb.h:1985-1993 | seconds below 0 or past a day are carried into days |
| CivilTime.CarryDays | Source/tzdb.h:1994-2008 | days are carried into years; fails exactly when the year, or it less 1900, is no int |
| CivilTime.Weekday | Source/tzdb.h:2009-2020 | the weekday computed from small terms is (4 + days since the epoch) mod 7 |
| CivilTime.Clock | Source/tzdb.h:2021-2028 | hours, minutes and seconds re-encode the second of the day; an inserted second shows one more |
| CivilTime.SplitMonth | Source/tzdb.h:2029-2032 | month and day of the month re-encode the day of the year and are in range |
| CivilTime.Timesub | Source/tzdb.h:1929-2034 | for every t, offset and leap table: all fields in range, their Seconds Since the Epoch by the formula of POSIX the local second, one more at an inserted second, weekday and day of the year right; EOVERFLOW exactly for the stated years |
| PosixTime.FieldsArePosix | Source/tzdb.h:1929-2034 | the fields of a local second by formulas of their own: the Seconds Since the Epoch of POSIX, the day of the year of month and day by months of 30.6 days, the weekday by sevens from a Thursday |
| PosixTime.OutOfRangeIff | Source/tzdb.h:1965-2008 | the times without an answer, in numbers |
| PosixTime.CorrectionIs | Source/tzdb.h:1938-1955 | the correction is that of the last leap second not after t, and t is an inserted second if that one comes then and adds one |
| PosixTime.Epoch | Source/tzdb.h:1929-2034 | time 0 is midnight of Thursday, 1 January of year 70, and no other fields are |
| PosixTime.LeapDay | Source/tzdb.h:1929-2034 | 951782400 is midnight of Tuesday, 29 February of year 100 |
| CivilOrder.FieldsUnique | Source/tzdb.h:1929-2034 | a local second has one set of fields only, so that the fields determine the time |
| CivilOrder.FieldsOrder | Source/tzdb.h:1929-2034 | fields are ordered as the local seconds are, if inserted seconds end their minutes |
| CivilOrder.FieldsPeriod | Source/tzdb.h:1849-1866 | 400-year cycles change the year and nothing else |
| LeapSeconds.LocalOrder | Source/tzdb.h:1944-1955 | the local clock never goes back and stands still only into an inserted second, for tables the loader accepts |
| LeapSeconds.InsertedShowsSixty | Source/tzdb.h:2025-2028 | at an inserted second that ends its minute the fields are those of the second before, with 60 |
| LeapSeconds.DeletedIsSkipped | Source/tzdb.h:1944-1955 | at a deleted second the local clock goes on by two |
| LeapSeconds.OrderPreservedIffAligned | Source/tzdb.h:891-917 | among the 64-bit times for which timesub has an answer, later ones show strictly later fields if and only if every inserted second that is answered, as is the second after it, ends a local minute |
| Rules.RuleDayIs | Source/tzdb.h:1427-1490 | the day computed for a rule is the only one that Jn, n or Mm.w.d names: February 29 never counted by Jn, the w-th such weekday or the last for 5 |
| Rules.ZellerIsCalendar | Source/tzdb.h:1450-1463 | the congruence with truncating division is the calendar's weekday exactly when the year begun in March is not negative or is leap, else one day ahead |
| Rules.WeekdayOfMonth | Source/tzdb.h:1464-1481 | the loop finds the w-th weekday of the month, or the last one |
| Rules.Transtime | Source/tzdb.h:1414-1499 | the second of the year is the rule's for every year that is not negative or whose congruence is exact, and is another one for all other years |
| Rules.RuleDayPeriod | Source/tzdb.h:1414-1499 | a rule names the same day of the year 400 years later |
| RuleTable.KeptOrder | Source/tzdb.h:1656-1684 | if no kept year runs into the next, the changes of different kept years come in the order of the years, however they are swapped within a year; strictly so unless neighbours touch; years further apart are in order in any case |
| YearRules.RuleInForceUnique | Source/tzdb.h:1645-1699 | by the rules, over the changes of all years, at any time at most one type is in force |
| YearRules.SomeTypeInForce | Source/tzdb.h:1645-1699 | and one always is, whatever the rules |
| YearRules.InForceIff | Source/tzdb.h:1645-1699 | which one it is, among the changes of all years, can be told from those of the last year that has begun and the one before |
| YearRules.RuleInForceCycles | Source/tzdb.h:1828-1847 | what is in force has a 400-year period |
| RuleTable.PartedByCycle | Source/tzdb.h:1645-1684 | whether kept years run into each other can be checked on one 400-year cycle |
| RuleTable.UnrolledOrdered | Source/tzdb.h:1645-1684 | if none does, the unrolled table is in order, strictly so if no years touch |
| RuleTable.TableOrderedIff | Source/tzdb.h:1645-1684 | a full table is in order if and only if no kept year's changes run into those of the next year, if that is kept too, over all years |
| YearRules.LostPeriod | Source/tzdb.h:1669-1673 | which years are lost can be seen in one 400-year cycle |
| YearRules.TableInForce | Source/tzdb.h:1645-1699 | if no kept year runs into the next and none is lost, from its first entry to the first year left out a lookup in the table gives the type in force |
| RuleTable.FullTableSpan | Source/tzdb.h:1645-1684 | a full table reaches over at least 400 years, as folding needs, whatever the rules and in whatever order |
| YearRules.TableStandsForRule | Source/tzdb.h:1645-1699 | if no kept year runs into the next and none is lost, for every time, however far off, the folded lookup in the finite table gives the type in force by the endless rules exactly unless the time is at the seam |
| YearRules.TableFollowsIff | Source/tzdb.h:1645-1699 | for all rules that fill the table: lookups give the type in force at all times but the seam if and only if no kept year runs into the next and no year is lost |
| YearRules.PerpetualIff | Source/tzdb.h:1695-1697 | if no year is kept, the daylight time left is in force for ever if and only if each year's ends when the next one's begins |
| YearCases.LongString | Source/tzdb.h:1509-1634 | XXX5YYY6,0/0,364/22:30 is read as the zone whose common years are lost |
| YearCases.EmptyString | Source/tzdb.h:1509-1634 | EST5EDT,J1/1,J1 is read as the zone whose daylight time has no length |
| YearCases.AllYearString | Source/tzdb.h:1509-1634 | EST5EDT,0/0,J365/25 is read as the zone whose years touch |
| YearCases.LongYearsAreLost | Source/tzdb.h:1669-1673 | when daylight time begins in 2021 by that string, it is in force and the lookup gives another type |
| YearCases.EmptyYearsAreDropped | Source/tzdb.h:1695-1697 | by EST5EDT,J1/1,J1 standard time is in force at all times, and no year is kept |
| YearCases.AllYearButTheSeam | Source/tzdb.h:1645-1699 | by EST5EDT,0/0,J365/25 daylight time is in force at all times, and lookups give it at exactly all times but the seam |
| YearCases.AcrossString | Source/tzdb.h:1509-1634 | XXX0YYY,J365/167,J1/-167 is read as the zone whose years run into each other |
| YearCases.AcrossOutOfOrder | Source/tzdb.h:1645-1684 | no full table of that zone is in order |
| YearCases.AcrossShowsStandard | Source/tzdb.h:1874-1893 | from a week after each year begins to a week before the next does daylight time is in force by that zone's rules; the binary search in its table gives standard time, at exactly all times but the table's end and those whole cycles later |
| ZoneState.SearchedPasses | Source/tzdb.h:1874-1893 | in a table in any order the binary search gives the type of an entry not after t whose successor, if there is one, is after t |
| ZoneState.SearchedIsPick | Source/tzdb.h:1874-1893 | in a table in order that is the type of the last transition not after t, or the default type before the first |
| LocalTime.FindType | Source/tzdb.h:1874-1893 | the binary search finds that type, in a table in any order |
| LocalTime.Fold | Source/tzdb.h:1828-1847 | t is moved by the cycles that Folds counts; a fold that lands inside the table needs no other, so that the recursion is one deep |
| LocalTime.LandsIff | Source/tzdb.h:1828-1847 | every time that the code can be asked for is folded into the table, so that the branch called impossible is, if and only if the table has every second of 400 years, or is not marked for folding at an end with times beyond it |
| LocalTime.PutBack | Source/tzdb.h:1849-1866 | the folded years are put back into the year, if it then is an int |
| LocalTime.Localsub | Source/tzdb.h:1813-1906 | the answer is the local clock of the folded time with the years put back, or none exactly when the fold misses the table or a year on the way is no int; for tables in any order |
| LocalTime.FoldIsExact | Source/tzdb.h:1824-1868 | without leap seconds the fields are those that timesub gives for t itself with the offset picked |
| PosixTime.LocalIsPosix | Source/tzdb.h:1813-1906 | without leap seconds, at every time, the fields that localsub shows have the time with its offset added as their Seconds Since the Epoch |
| PosixTime.LocalWithLeaps | Source/tzdb.h:1894-1905 | with leap seconds, not folded, likewise with these taken out |
| RuleText.Getnum | Source/tzdb.h:1264-1288 | the value of the longest run of digits, if it is between min and max, and where the digits end |
| RuleText.NumberRoundTrip | Source/tzdb.h:1264-1288 | a number that is written is read back |
| RuleText.OffsetRoundTrip | Source/tzdb.h:1299-1356 | an offset up to 167:59:59 either way is read back |
| RuleText.GetRuleInRange | Source/tzdb.h:1364-1408 | whatever getrule accepts, transtime can evaluate |
| RuleText.RuleRoundTrip | Source/tzdb.h:1364-1408 | every rule in range that is written in POSIX form is read back, and reading stops at the comma or end after it |
| TzString.Getzname | Source/tzdb.h:1224-1236 | the end of a plain name |
| TzString.Getqzname | Source/tzdb.h:1243-1255 | the end of a name in angle brackets |
| TzString.ParseTzValid | Source/tzdb.h:1509-1634 | the rules of any TZ string that is accepted can be evaluated |
| TzString.TzRoundTrip | Source/tzdb.h:1509-1634 | a whole TZ string with names, offsets and rules is read back |
| TzGrammar.SpellingIsRead | Source/tzdb.h:1509-1634 | every string that the grammar spells is accepted, with the names, offsets and rules that its pieces mean |
| TzGrammar.ReadWasSpelt | Source/tzdb.h:1509-1634 | every string that is accepted is spelt by the grammar |
| TzGrammar.AcceptedIffSpelt | Source/tzdb.h:1509-1634 | a string is accepted if and only if the grammar spells it, and all its spellings mean what is read |
| TzParse.FirstJanuary | Source/tzdb.h:1636-1644 | the loop goes back from 1970 to the first second of the first year of the table |
| TzParse.YearChanges | Source/tzdb.h:1648-1669 | a year's two changes in order, and whether they are kept |
| TzParse.AddYear | Source/tzdb.h:1664-1684 | they are put at the end of the table if there is room; the offset since January 1 is carried along without overflow |
| TzParse.UnrollYears | Source/tzdb.h:1636-1689 | the table is the changes of consecutive years; the loop ends when it is full or after 400 years without a change |
| TzParse.StopMeansFullOrNone | Source/tzdb.h:1685-1689 | when the loop ends, the table is full or no year at all has changes |
| TzParse.UnrollRules | Source/tzdb.h:1626-1699 | the state stands for the rules: a full table that folds both ways, or one type, perpetual daylight time |
| TzParse.ScanTz | Source/tzdb.h:1514-1634 | a TZ string is taken apart as ParseTz says, which TzGrammar characterises |
| TzParse.CopyNames | Source/tzdb.h:1796-1804 | both abbreviations stand in chars with their nuls |
| TzParse.Tzparse | Source/tzdb.h:1503-1806 | accepted exactly if ParseTz takes the string, that is if the grammar spells it; the state then has the string's types, abbreviations and table |
| TzParse.RuleStateFoldable | Source/tzdb.h:1824-1847 | the states that tzparse makes, whatever the rules, can be looked up in and folded |
| TzParse.LocalTimeFollowsRule | Source/tzdb.h:1813-1906 | for all times and all rules, localsub shows the clock of one of the two types; if no kept year runs into the next and no year is lost it is the one that the yearly rules put in force, exactly unless the time is at the seam |
| TzParse.LocalTimePerpetual | Source/tzdb.h:1695-1697 | if no year is kept, localsub shows daylight time at all times |
| UsualRules.ShowsOneKind | Source/tzdb.h:1894-1905 | whatever the rules, localsub shows one of the two kinds of a string, with its clock and its name |
| UsualRules.InForceBetween | Source/tzdb.h:1645-1699 | by usual rules daylight time is in force from its beginning to its end, and standard time from that to the next beginning |
| UsualRules.UsualRulesFollowed | Source/tzdb.h:1645-1699 | for any string whose daylight time is a part of every year, or goes over its end, and ends before it begins again: at every time but the one class at the table's end localsub shows the clock, kind and name that the rules put in force |
| UsualRules.UsualClock | Source/tzdb.h:1669-1673 | and so those of daylight time between its beginning and its end in any year, and those of standard time between its end and the next beginning |
| UsualRules.AnsweredIff | Source/tzdb.h:1852-1866 | from a string with rules localsub has an answer exactly if the local year is from -2147481748 to 2147485547 |
| UsualRules.FixedClock | Source/tzdb.h:1590-1600 | a string without daylight time shows its one clock and name at all times |
| UsualRules.PerpetualClock | Source/tzdb.h:1695-1697 | if daylight time has every year no length, or that of the whole year, the clock and name of daylight time are shown at all times |
| UsualZones.EasternIsRead | Source/tzdb.h:1584-1634 | EST5EDT, and EST5EDT,M3.2.0,M11.1.0, are read as the zone with those rules |
| UsualZones.SydneyIsRead | Source/tzdb.h:1584-1634 | so is AEST-10AEDT,M10.1.0,M4.1.0/3 |
| UsualZones.MoscowIsRead | Source/tzdb.h:1517-1600 | and <+03>-3 as three hours east without daylight time, named +03 |
| UsualZones.BothUsual | Source/tzdb.h:1669-1673 | both zones are usual, and nothing touches the end of their tables |
| UsualZones.ChangesOf2021 | Source/tzdb.h:1414-1499 | their changes of 2021 in seconds since the epoch |
| UsualZones.EasternClock | Source/tzdb.h:1813-1906 | in 2021 localsub shows EDT, four hours west, between them, and EST, five hours west, before and after |
| UsualZones.SydneyClock | Source/tzdb.h:1813-1906 | and in Sydney AEST between them, and AEDT before and after |
| UsualZones.EasternFields | Source/tzdb.h:1813-1906 | at 1610000000 there is an answer: all the fields, and the name EST |
| TzBytes.Detzcode | Source/tzdb.h:681-699 | the four-byte two's complement number, without overflow on the way |
| TzBytes.Detzcode64 | Source/tzdb.h:704-723 | the eight-byte one |
| TzFile.CompactIncreasing | Source/tzdb.h:838-870 | what the two passes keep has strictly increasing times |
| TzFile.CompactPicks | Source/tzdb.h:838-870 | and the same lookups as the file's list, the later of two entries at one time counting |
| TzFile.KeepTime | Source/tzdb.h:844-859 | a time is kept, or put over the last one if equal, or refused if earlier |
| TzFile.ReadTimes | Source/tzdb.h:838-860 | the first pass: the times kept, and a mark for each entry kept |
| TzFile.ReadTypes | Source/tzdb.h:862-870 | the second pass moves the types of marked entries down over the marks; refused exactly if some type does not exist |
| TzFile.DecodeTransitions | Source/tzdb.h:834-870 | both passes in place leave times and types aligned |
| TzFile.ReadInfos | Source/tzdb.h:872-888 | types are accepted exactly if flags are 0 or 1 and abbreviations begin inside the characters |
| TzFile.ReadChars | Source/tzdb.h:889-891 | the characters, and a nul after them |
| TzFile.ReadLeaps | Source/tzdb.h:893-920 | leap records are accepted exactly if 28 days apart less a second, and one second each |
| TzFile.ReadFlags | Source/tzdb.h:922-944 | the standard and UT flags, false when the file has none |
| TzFile.DecodeBlock | Source/tzdb.h:800-949 | a block is accepted exactly if well formed; the cursor has then moved by what the size check computed, and the state holds what the file says |
| TzWritten.TransitionsRead | Source/tzdb.h:838-870 | the transitions read of a block written field by field are those written |
| TzWritten.InfoRead | Source/tzdb.h:872-888 | so is each type: offset, kind, place of its name, and both flags |
| TzWritten.CharsRead | Source/tzdb.h:889-891 | so are the characters |
| TzWritten.LeapsReadBack | Source/tzdb.h:893-920 | and the leap seconds |
| TzWritten.WrittenIsWellFormed | Source/tzdb.h:800-949 | every block that can be written is accepted, and its end is found |
| TzAccepted.AcceptedIffWritten | Source/tzdb.h:800-949 | a buffer is accepted as a block if and only if it begins with one that can be written: counts below the limits, times in order, types and names that exist, leap seconds of one second and 28 days less a second apart, any twenty bytes in front |
| TzSplice.TrimmedPicks | Source/tzdb.h:994-1001 | dropping the changes at the end that change nothing changes no lookup |
| TzSplice.SplicedPicks | Source/tzdb.h:1003-1017 | before the first appended time lookups are the file's, from it on those of what was appended |
| TzSplice.AppendedPicks | Source/tzdb.h:1003-1017 | up to what there was no room for these are the footer's own, equal times included |
| TzSplice.SplicedOrdered | Source/tzdb.h:1003-1017 | the spliced table is in order, strictly so if both parts are |
| TzSplice.ShiftOrdered | Source/tzdb.h:1003-1017 | counting leap seconds keeps transitions in order; strictly so if they are two seconds apart, or there are no leap seconds |
| TzSplice.TrimmedEnds | Source/tzdb.h:994-1001 | what is dropped at the end are exactly the transitions to the type that is there already |
| TzSplice.FooterTakesOver | Source/tzdb.h:1003-1017 | the first of the footer's transitions after the file's last change takes over at once, and the next ones follow as far as there is room |
| TzSplice.ClockReached | Source/tzdb.h:1003-1017 | at every time of a clock that counts leap seconds there is a last second that the footer's clock has reached: the one up to which its shifted times are not after that time |
| TzLoad.ScanRepeats | Source/tzdb.h:1023-1047 | the state is marked for folding exactly if its first transition comes again, or its last came before, by 400 years |
| TzRepeat.ScannedFoldable | Source/tzdb.h:1023-1047 | a state so marked can be looked up in, and if its table is in order it reaches over 400 years, so that every time can be folded |
| FoldCases.LoadedLandsIff | Source/tzdb.h:1023-1047 | in loaded states, in order or not: every time can be folded if and only if the table has every second of 400 years, or does not repeat at an end with times beyond it |
| FoldCases.LateSpliced | Source/tzdb.h:1003-1017 | 1198 transitions from the file and the footer XXX0YYY,J365/167,J1/-167 make a table whose last entry comes 400 years after one like it, and less than that after the first |
| FoldCases.LateFileMisses | Source/tzdb.h:1842-1846 | any state loaded from a file with these is marked for folding, and a second after its end the fold misses the table, so that localsub has no answer |
| LateFile.LateBytesMiss | Source/tzdb.h:1842-1846 | that happens: such a file is written out as bytes, and is accepted with its footer; loaded from it, localsub has no answer at 14231635201 |
| TzRepeat.RepeatsWithin | Source/tzdb.h:1023-1047 | the marks depend only on the characters in use |
| TzRepeat.AlikeShowSame | Source/tzdb.h:1175-1198 | types count as alike exactly if they have the same clock, kind, flags and name |
| TzRepeat.TwoRepeat | Source/tzdb.h:1023-1047 | two transitions 400 years apart repeat at both ends exactly if their types are alike |
| TzRepeat.DefaultCases | Source/tzdb.h:1049-1099 | the four ways to choose the type before the first transition, each by an example |
| TzLoad.DefaultType | Source/tzdb.h:1049-1099 | the type before the first transition: 0 if no transition is to it, or else the greatest standard type below that of a first transition to daylight time, or else the least standard type, or else 0 |
| TzLoad.TrimNoOps | Source/tzdb.h:994-1001 | the loop drops exactly those changes |
| TzLoad.AppendFooter | Source/tzdb.h:1003-1020 | the footer's transitions past the end are appended as far as there is room, shifted by leap seconds and numbered after the file's types |
| TzAbbrs.PlaceAbbr | Source/tzdb.h:972-990 | an abbreviation is found among those in use, or put after them if there is room: characters, count and place as specified |
| TzAbbrs.ReuseAbbrs | Source/tzdb.h:964-991 | the abbreviations of all footer types are placed one after the other, each type is given its place, and those placed are counted |
| TzNames.PlacedIff | Source/tzdb.h:972-990 | each placed abbreviation is found at its place afterwards exactly if it is not spoiled: found only in the file's last, unended abbreviation, with one after it the first to be put; none is spoiled if the characters end with a nul |
| TzNames.AbbrsKeptIff | Source/tzdb.h:972-990 | the file's own abbreviations are unchanged by all this if and only if its characters end with a nul, or each footer abbreviation stands among them already or has no room; exactly then, for the latter, the count of characters is unchanged |
| TzNames.GrownName | Source/tzdb.h:972-990 | with characters EST and no nul, placing EST and EDT makes the first name ESTEDT |
| TzLoad.LoadBlocks | Source/tzdb.h:800-951 | both blocks, or the one of a version 1 file, are decoded; accepted exactly if they are well formed, with what follows left in the buffer |
| TzFooter.ParsedIsGood | Source/tzdb.h:1517-1588 | the names of any TZ string that is accepted are inside it and not empty |
| TzLoad.ParseFooter | Source/tzdb.h:952-963 | the footer is parsed exactly if there is one between newlines, with room for two types, that tzparse takes; its types, names and table are those of its text |
| TzLoad.SpliceFooter | Source/tzdb.h:964-1020 | used exactly if all abbreviations could be placed; the state then has the footer's transitions, types and characters added, and otherwise at most characters left behind |
| TzLoaded.LoadedOrdered | Source/tzdb.h:994-1017 | the table of a loaded file is in order if no kept year of its footer runs into the next; strictly so if no years touch and, with leap seconds, its changes are two seconds apart |
| TzLookup.LoadedPicks | Source/tzdb.h:994-1017 | lookups in a loaded table are the file's before the footer's part, the later of equal entries counting, and the footer's in it |
| TzLookup.OwnTypes | Source/tzdb.h:872-891 | the loaded types are first those that the block lists; the block's abbreviations are unchanged exactly if its characters end with a nul or the footer adds none, and then so are the names of its types |
| TzLookup.FooterTypes | Source/tzdb.h:1018-1019 | then those of the footer's text, with its offsets and kinds, and each with its name exactly if that is not spoiled, as none is if the block's characters end with a nul |
| TzLookup.FooterInForce | Source/tzdb.h:1003-1020 | in the footer's part, leap seconds or not, a lookup gives offset and kind of the type that the footer's rules put in force at the second its clock has reached, if no year is lost, and its name exactly if that is not spoiled |
| TzEver.LongPartRepeats | Source/tzdb.h:1023-1047 | a table that ends in 400 years of the footer's part, or more if years touch, repeats at its end |
| TzEver.FooterForEver | Source/tzdb.h:1023-1047 | past such a table, which the loader has then marked for folding, localsub shows for ever, however far off, the clock and the kind of the type that the footer's rules put in force, if no year is lost |
| TzEver.ShowsInfo | Source/tzdb.h:1894-1905 | localsub shows the clock under the offset of the type looked up, its kind, and where its name is |
| TzLoad.Load | Source/tzdb.h:794-1102 | a file is loaded exactly if its blocks are well formed and it comes to have a type; the state is then the function of its bytes that TzLoaded gives, footer, types, names and characters included, marked for folding exactly where it repeats, with its default type, and safe to fold if in order |
| TzWhole.LoadsWhatIsWritten | Source/tzdb.h:794-951 | what is loaded of a file is what was written in its last block: transitions, types with offsets, kinds, names and flags, characters, leap seconds |
| TzWhole.AcceptableIffWritten | Source/tzdb.h:800-951 | files are accepted if and only if they can be written so: one block of version 1, or two |
| TzWhole.WrittenIsShown | Source/tzdb.h:1813-1906 | without leap seconds or a footer, localsub shows at t the clock, kind and name of the type that the last transition written not after t begins |
| TzWhole.FooterIsRead | Source/tzdb.h:952-963 | a text written between newlines after the last block is the footer exactly if tzparse takes it and there is room for two more types |
| FooterOnly.FooterIsAll | Source/tzdb.h:1023-1047 | from a file without transitions or leap seconds of its own and with usual rules in its footer, localsub shows what these put in force, at all times before and after, but for the one class at the table's end |
| MarkOrder.OrderedUnique | Source/GSeq.h:157-216 | an ordered sequence is determined by its starters and their sets of marks |
| MarkOrder.SortSound | Source/GSeq.h:157-216 | the normal form has every run of marks strictly increasing by class and code, and keeps starters and sets of marks |
| MarkOrder.SortByClass | Source/GSeq.h:172-180 | in the normal form a mark has a greater combining class than the one before it, or the same class and a greater code |
| MarkOrder.SortCanonical | Source/GSeq.h:157-216 | two sequences have the same normal form exactly if they have the same starters with the same sets of marks, however arranged or repeated |
| MarkOrder.SortIdempotent | Source/GSeq.h:157-216 | ordering twice is ordering once |
| MarkOrder.SortKeepsStarters | Source/GSeq.h:157-216 | starters keep their order |
| MarkSorting.WeightSwapped | Source/GSeq.h:170-191 | an exchange of marks out of order raises a weight that is bounded: with the count, the measure on which the loop ends |
| MarkSorting.DropRepeats | Source/GSeq.h:192-208 | the marks equal to the first are removed and what follows is moved down |
| MarkSorting.Pass | Source/GSeq.h:163-214 | a pass keeps starters and sets of marks; one that finds nothing to do leaves order, any other makes progress |
| MarkSorting.SortMarks | Source/GSeq.h:157-216 | the loop ends, with the normal form in place |
| Decompose.SettlesIffPlain | Source/GSeq.h:112-152 | the expansion leaves nothing composed exactly if each round's first decomposition begins with a unit that is not composed |
| Decompose.ExpandFullIff | Source/GSeq.h:112-152 | it is the full decomposition exactly under that condition |
| Decompose.AlwaysSettlesIff | Source/GSeq.h:112-152 | all sequences are fully decomposed exactly if no decomposition in the tables begins with a composed unit |
| Decompose.LeadStaysComposed | Source/GSeq.h:132-150 | U+01D5, decomposed once only, is a sequence that is not |
| CharNormal.NormalParts | Source/GSeq.h:79-220 | the normal form is the part before the first high unit, the ordered expansion up to a nul, and that nul counted in |
| CharNormal.NormalIdempotentIff | Source/GSeq.h:79-220 | normalising twice is normalising once exactly if the first time left nothing composed |
| CharNormal.NormalIsCanonical | Source/GSeq.h:79-220 | sequences that settle have the same normal form exactly if their full decompositions, the counted nul included, have the same starters with the same sets of marks |
| CharNormal.NormalIffNulFree | Source/GSeq.h:79-220 | for sequences without nuls: exactly if their full decompositions have, and both or neither have a unit from 0x00C0 up |
| CharNormal.KelvinIsNotK | Source/GSeq.h:95-104 | U+212A and U+004B have the same full decomposition and different normal forms |
| CharNormal.NormalByClass | Source/GSeq.h:172-180 | the same of all that normalising makes of a sequence |
| CharNormal.DotBeforeAccent | Source/GSeq.h:172-180 | a, U+0301 of class 230, U+0323 of class 220: the second mark is put first |
| CharNormal.AccentTakenApart | Source/GSeq.h:79-220 | c, U+00E9, b becomes c, e, U+0301, b and a nul |
| CharNormal.NulCuts | Source/GSeq.h:112-153 | what follows a nul after the first unit from 0x00C0 up is lost |
| CharSequence.ExpansionFits | Source/GSeq.h:66-86 | the room of MAXDEC units a unit is enough, the counted nul included, if no unit decomposes to MAXDEC units |
| CharSequence.Again | Source/GSeq.h:114-152 | one time round the loop decomposes once all units up to the nul, and finds where to go on |
| CharSequence.ExpandAll | Source/GSeq.h:112-153 | the rounds end, with the expansion in place |
| CharSequence.GSeq.constructor | Source/GSeq.h:70-72 | a sequence with room, not normalised |
| CharSequence.GSeq.Normalize | Source/GSeq.h:79-220 | the content becomes its normal form in place, marks by rising class and code, without leaving the buffer; an empty sequence is not marked |
| CharSequence.GSeq.Compare | Source/GSeq.h:226-273 | the answer for any two sequences, marked or not, and what is left in them |
| CharOrder.LexTransitive | Source/GSeq.h:255-272 | the order of units is transitive, and same only if both steps are |
| CharOrder.ShortCutAgreesIff | Source/GSeq.h:237-250 | the short cut for equal units agrees with the comparison of normal forms except for equal sequences marked differently of which the normal form differs |
| CharOrder.AnswerOpposite | Source/GSeq.h:226-273 | when two sequences change places the answer is the opposite, whatever their marks |
| CharOrder.OrdersIff | Source/GSeq.h:226-273 | over all unmarked sequences and any set of marked ones the comparison is transitive if and only if all that is marked is normal; and it is the order of the normal forms if and only if that holds |
| CharOrder.CodeOrdersIff | Source/GSeq.h:226-273 | with the marks that normalising sets, it is transitive, and the order of the normal forms, if and only if no decomposition in the tables begins with a composed unit |
| CharOrder.LeadBreaksOrder | Source/GSeq.h:226-273 | with the entries for U+01D5 and U+00DC it is not: three sequences of which the first two and the last two are the same, and the first comes after the last |
| CharOrder.SameIff | Source/GSeq.h:226-273 | sequences without nuls that settle compare the same exactly if their full decompositions have the same starters with the same sets of marks, and both or neither have a unit from 0x00C0 up |
| CharOrder.KelvinIsAfterK | Source/GSeq.h:226-273 | U+004B compares as before U+212A |
| CharOrder.LexAscendingIff | Source/GSeq.h:255-272 | units are compared as in a dictionary: the first difference decides, and a beginning comes first |
| CharOrder.DotBelowComesAfter | Source/GSeq.h:226-273 | a with U+0301 and U+0323 comes after a with U+0302 |
| Search.MatchAt | Source/GSeq.h:735-749 | the inner loop says whether the string is at an index |
| Search.FindRange | Source/GSeq.h:653-859 | forward the least match in the range, backward the greatest, anchored only the one end; none exactly if there is none or the string is empty |
| Search.FoundUnique | Source/GSeq.h:718-859 | there is one right answer |
| Search.AnchoredFinds | Source/GSeq.h:653-859 | an anchored exact search finds the string exactly if the range begins with it, or backward ends with it |
| Search.SearchFinds | Source/GSeq.h:653-859 | an exact search finds it if and only if it is a part of the range, and then the first such part, or backward the last |
| Search.CaselessIsLowered | Source/GSeq.h:718-789 | caseless search is exact search of the strings in lower case |
| Search.ForwardBackward | Source/GSeq.h:718-859 | forward and backward succeed together, and forward finds no later |
| Search.CompareRange | Source/GSeq.h:394-557 | literal comparison is the lexicographic order, of the strings in lower case if caseless |
| Search.SearchAgreesWithOrder | Source/GSeq.h:394-557 | the string is at an index exactly if the units there compare the same as it |
| Shifting.ShiftUp | Tools/gdomap.c:763-766 | entries move up by one place |
| Shifting.ShiftDown | Tools/gdomap.c:897-901 | entries move down over the one removed |
| Bytes.WordRoundTrip | Tools/gdomap.c:2841-2841 | a number put in network byte order is read back |
| Bytes.BytesRoundTrip | Tools/gdomap.c:2731-2731 | and four bytes are those of the number they make |
| NameMap.CompareOrder | Tools/gdomap.c:693-705 | names are compared equal exactly if equal, and oppositely the other way round |
| NameMap.CompareTransitive | Tools/gdomap.c:693-705 | the order by length and bytes is transitive |
| NameMap.CompareMeans | Tools/gdomap.c:693-705 | a name comes before another if it is shorter, or as long and smaller in the first byte that differs |
| NameMap.ViewAt | Tools/gdomap.c:689-691 | the entries of the sorted array are the items of the map it stands for |
| NameMap.SortedCanonical | Tools/gdomap.c:689-691 | a sorted array is determined by that map |
| NameTable.NameArray.ByName | Tools/gdomap.c:785-830 | the binary search finds an entry exactly if there is one |
| NameTable.NameArray.ByPort | Tools/gdomap.c:836-871 | the first entry with that port and type, none exactly if there is none |
| NameTable.NameArray.Add | Tools/gdomap.c:712-779 | the array stays sorted, and stands for the map with one item more |
| NameTable.NameArray.Del | Tools/gdomap.c:878-905 | exactly the one entry is removed |
| NameTable.NameArray.Register | Tools/gdomap.c:2829-2931 | REGISTER does to the array what the finite map says, with that answer |
| NameTable.NameArray.Lookup | Tools/gdomap.c:2935-3047 | LOOKUP, likewise: an entry is removed only if its type was asked for and its port could be bound |
| NameTable.NameArray.Unregister | Tools/gdomap.c:3061-3099 | UNREG, likewise, by name or port |
| NameTable.NameArray.UnregisterPort | Tools/gdomap.c:3092-3098 | the loop ends and removes exactly the entries with that port and type, keeping the order of the others |
| NameTable.OthersView | Tools/gdomap.c:3092-3098 | the others stand for the map without those items |
| NameRuns.Serve | Tools/gdomap.c:2793-3100 | the array follows the finite map over every request, so that it stays sorted with unique names over every run; only local processes change names by REGISTER and UNREG |
| NameRuns.PromiseIff | Tools/gdomap.h:58-62 | REGISTER keeps its promise exactly unless port zero is asked for a name whose other port can be bound |
| NameRuns.PortZeroTakesTheName | Tools/gdomap.c:2889-2903 | a name with port 538 that can be bound: registering port zero is refused, and leaves the name with port zero |
| NameRuns.TypeKeptIff | Tools/gdomap.c:2830-2842 | after success the name has the type asked for exactly unless it had that port with another type |
| NameRuns.RunNoZero | Tools/gdomap.c:2793-3100 | over runs that register no port zero no name has port zero, so that zero always means none |
| NameRuns.RunByName | Tools/gdomap.c:2793-3100 | over whole runs names do not interfere: each name has what its own requests make of it |
| NameRuns.LiveNameIsHeld | Tools/gdomap.c:2806-2828 | a name stays with its process as long as that keeps its port busy and nobody unregisters it |
| NameRuns.LiveNameIsTold | Tools/gdomap.c:2806-2828 | and in all that time every lookup is told its port, and every other port is refused the name |
| NameAnswers.LookupTells | Tools/gdomap.c:2935-3047 | a lookup is answered by a port exactly if the name has it under that type and it cannot be bound, and the name then keeps it; by zero if the name is absent, has another type, or has a port that could be bound, and then it is gone |
| NameAnswers.RegisterTells | Tools/gdomap.c:2829-2931 | what a local process that registers is answered, and what the name has then, in every case |
| NameAnswers.UnregisterNameTells | Tools/gdomap.c:3061-3089 | the port the name had under that type, which it then has no more, or zero and no change, a port of zero excepted |
| NameAnswers.UnregisterPortTells | Tools/gdomap.c:3092-3098 | the port exactly if some name had it under that type; none has it so then, and all others are as before |
| NameAnswers.OthersOnlyLearn | Tools/gdomap.c:2793-2803 | other hosts change no name and get no answer but to lookups |
| NameAnswers.ToldWasRegistered | Tools/gdomap.c:2935-3047 | over every run from an empty map: a port told by a lookup was registered by a local process for that name and type, nothing has freed it since, and it is in use; a name never registered so is answered by zero |
| NameAnswers.UnregisteredWasRegistered | Tools/gdomap.c:3061-3089 | likewise for a port told when a name is unregistered |
| NameAnswers.HeldIsTold | Tools/gdomap.c:2806-2828 | and a name registered, and not freed since, is found under its type while its port is in use |
| NameList.NamesReply | Tools/gdomap.c:3139-3168 | the reply is filled exactly to four bytes and the count of bytes announced |
| NameList.WalkRecovers | Tools/gdomap.c:3941-3950 | the client's walk visits as many records as there are names and finds each name and type, in order |
| NameList.CountNames | Tools/gdomap.c:3941-3957 | the client counts the places visited; from 65536 on it takes none |
| NameList.ListNames | Tools/gdomap.c:4383-4396 | the second walk lists the names at those places |
| NameList.NamesShown | Tools/gdomap.c:3864-3964 | from the server's array to the client: it gives up exactly if the records are more than 10000000 bytes, and otherwise shows all names in order if fewer than 65536, and none if not |
| Requests.RequestRoundTrip | Tools/gdomap.c:3822-3834 | what a client writes the server takes for the request meant, each kind for what it is: name and type survive, and the port of REGISTER; UNREG always goes with port zero |
| Requests.NameServer.HandleRequest | Tools/gdomap.c:2728-3354 | from the bytes of any request to the bytes of the reply, if there is one, and to the name map and list of servers after it: refusals, local-only requests, names, servers, probes |
| Requests.NameServer.HandleName | Tools/gdomap.c:2793-3100 | requests about names are answered by the port in network byte order that the finite map gives |
| Requests.ClientLearns | Tools/gdomap.c:3850-3887 | with ports of 16 bits a client understands from a reply exactly what the finite map answers |
| Requests.MetLists | Tools/gdomap.c:3176-3192 | a probe or a reply to one from a server's port makes known the address it names and its own, and nobody else |
| Wire.RequestIs | Tools/gdomap.c:2693-2792 | what 264 bytes are taken for: by letter, type, length of the name, port and name at their places, and refused exactly otherwise |
| Wire.ProbeRoundTrip | Tools/gdomap.c:3170-3254 | a probe or a reply to one that names an address is taken for one that does |
| Wire.RegisterBytes | Tools/gdomap.h:206-213 | the first bytes of two requests |
| Wire.ServersReplyIs | Tools/gdomap.c:3120-3137 | the number of addresses that follow, first that of the requester, and then the servers, the last one contacted first |
| Wire.NamesReplyIs | Tools/gdomap.c:3139-3168 | the number of bytes that follow, and the names with their lengths and types before them, shorter ones first |
| Wire.ReplyIs | Tools/gdomap.c:2728-3354 | what is sent back, by the letter of the request: names are changed and servers listed for this host alone, lookups are answered truly, names listed to all, probes answered by the port, and refused requests by nothing |
| Wire.ClientIsToldTruly | Tools/gdomap.c:3850-3887 | a client that understands a port from the reply to its lookup knows one that the name has under that type, and that is in use |
| Peers.AddedSound | Tools/gdomap.c:926-991 | a contact leaves no server listed twice, and none that may not be |
| Peers.PrunedAge | Tools/gdomap.c:1022-1035 | a look at the list leaves exactly the servers that are at most 1800 seconds old, or not probed for since, or all of them if probing is off |
| Peers.OneHost | Tools/gdomap.c:932-939 | a host with one interface: which addresses it may list |
| Peers.PeerList.Add | Tools/gdomap.c:926-991 | the server contacted goes to the end, its old entry removed, if it may be listed |
| Peers.PeerList.Del | Tools/gdomap.c:998-1016 | exactly the entry for the address is removed |
| Peers.PeerList.Tim | Tools/gdomap.c:1022-1035 | deleting by address on the way down removes exactly the stale entries and keeps the order |
| Peers.PeerList.ServersReply | Tools/gdomap.c:3120-3137 | the reply is the count, the requester's address and the exact reverse of the list |
| Peers.ReversedAt | Tools/gdomap.c:3126-3136 | the k-th address in it is that of the k-th last server |
| PeerRuns.RunSound | Tools/gdomap.c:926-1035 | in every reachable state the list is without repetition and holds only servers it may hold |
| PeerRuns.RunIsLastContacts | Tools/gdomap.c:919-925 | after any run the list is the last contacts in order of time, those left out that were found stale |
| PeerRuns.RunInOrder | Tools/gdomap.c:1018-1035 | under a clock that does not go back the times stay in order |
| PeerRuns.PrunedIsSuffix | Tools/gdomap.c:1018-1035 | and pruning removes exactly a stale front |
| Probes.PartsAreAll | Tools/gdomap.c:3296-3304 | the other addresses are sent once each, in as few parts as fit the name field |
| Probes.ReplyAddressIs | Tools/gdomap.c:3255-3294 | a reply gives the address probed, if it is ours and not the loopback one, or else one of ours on the net that the probe came from, or zero if there is none |
| Probes.OthersAre | Tools/gdomap.c:2017-2058 | the other addresses are all those of this host on the net, itself left out, and no more |
| Probes.RepliesAre | Tools/gdomap.c:3255-3304 | to whom the replies to a probe go, which addresses they give, and that all our other addresses are in them |
| Probes.ReceivedLists | Tools/gdomap.c:3237-3254 | a probe, or a reply to one, makes known the server it names and the address it came from, and nobody else; what comes from this host or from no server makes nobody known |
| Probes.OtherAddressesOnNet | Tools/gdomap.c:2017-2058 | the other addresses of this host on the net, counted and then collected |
| Probes.Server.QueueOthers | Tools/gdomap.c:3295-3304 | one reply for each part |
| Probes.Server.Reply | Tools/gdomap.c:3255-3304 | the replies to a probe, with the address chosen for them |
| Probes.Server.Receive | Tools/gdomap.c:2670-2692 | what a probe or a reply to one does to the list and the queue; messages from this host are discarded |
| Probes.RepliesBounded | Tools/gdomap.c:3170-3347 | a probe causes a bounded number of replies, the last to where it came from; a reply causes no message |
| ProbeNet.ReceivedCost | Tools/gdomap.c:3170-3347 | a message takes more from what can still move than all that it causes |
| ProbeNet.MovementDrains | Tools/gdomap.c:3379-3432 | every message that is sent, delivered or lost takes from it |
| ProbeNet.TrafficEnds | Tools/gdomap.c:3341-3346 | with any number of servers and any delay, loss and order, traffic ends unless a server starts probing |
| ProbeNet.RunAllSound | Tools/gdomap.c:926-991 | in every reachable network state no list holds a server twice or one it may not hold |
| ProbeNet.ProbeIsAnswered | Tools/gdomap.c:3237-3304 | a probe that reached another server has its reply queued for the address it came from |
| ProbeNet.ContactIsKnown | Tools/gdomap.c:926-991 | what a server hears of it lists, if it may, as long as it is fresh: every later look at its list finds it not half an hour old, or not probed for since |
| ProbeNet.ReplyIsCaused | Tools/gdomap.c:3237-3304 | in every run that begins quietly, a reply from b that comes to an address a was caused by a probe from a, or naming it, that came before to a server that owns b |
| ProbeNet.ExchangeInforms | Tools/gdomap.c:3170-3192 | and then the server at a lists b, and the one at b lists a, until it is no longer fresh, whatever else happens |
| Infos.PutGet | Tools/gdomap.c:517-553 | making or changing one descriptor's entry changes no other |
| Infos.DelGet | Tools/gdomap.c:555-580 | removing one removes no other |
| Channels.ChannelTable.constructor | Tools/gdomap.c:1994-2001 | at the start both listening sockets are waited for to read, and there are no clients |
| Channels.ChannelTable.HandleAccept | Tools/gdomap.c:2311-2390 | a new client is read from, or cleared if it cannot be made non-blocking; nothing else changes |
| Channels.ChannelTable.HandleRead | Tools/gdomap.c:2591-2644 | the bytes read are added; a full request is handled, an end or error closes; every client is in exactly one set with one entry |
| Channels.ChannelTable.HandleRequest | Tools/gdomap.c:2721-2792 | a client with a reply is waited for to write it from its start, one without is cleared |
| Channels.ChannelTable.HandleWrite | Tools/gdomap.c:3444-3499 | what is taken is counted; the client is cleared on failure or when all is written; position stays below length |
| Channels.ChannelTable.ClearChan | Tools/gdomap.c:1043-1087 | a client's entries and bits are gone; a listening socket is waited for to read again |
| Channels.ChannelTable.HandleDatagram | Tools/gdomap.c:3356-3364 | the UDP socket is back to reading whatever the request, the reply left to the queue |
| Channels.ReadPieces | Tools/gdomap.c:2610-2626 | the loop collects the pieces in order |
| Conversations.ChunkingDoesNotMatter | Tools/gdomap.c:2586-2590 | however a request comes in pieces, the connection is what its bytes make of it |
| Conversations.RequestIsStream | Tools/gdomap.c:2627-2631 | a request handled is exactly the first 264 bytes that came, and the reply the server's to it |
| Conversations.SentIsPrefix | Tools/gdomap.c:3461-3497 | what is sent is always the next part of the reply; without a failure the connection is closed exactly when all is sent |
| Conversations.ConversationIsAnswer | Tools/gdomap.c:2586-2644 | what a client gets is a beginning of the server's reply to its first 264 bytes, and nothing if they never came |
| Conversations.EndDecides | Tools/gdomap.c:2610-2644 | a connection that ends is closed if fewer than 264 bytes came; if they did, the request is handled all the same |
| Conversations.HalfRequestIsNone | Tools/gdomap.c:2610-2644 | so that half a request leaves no trace, whatever the server would answer |
| UdpQueue.Queue.QueueMsg | Tools/gdomap.c:636-662 | a message goes to the end, not yet sent |
| UdpQueue.Queue.HandleSend | Tools/gdomap.c:3379-3432 | what is sent is counted; the first message leaves when sent or when sending fails |
| UdpQueue.RunInOrder | Tools/gdomap.c:631-676 | over every run messages leave in the order they came, each having sent a beginning of itself, and none is lost from the queue otherwise |
| UdpQueue.RunWhole | Tools/gdomap.c:3379-3432 | unless a sending fails, every message that leaves was sent to its last byte |
| UdpQueue.FailureDrops | Tools/gdomap.c:3396-3424 | a message that cannot be sent is dropped and does not hold up the next, one that has to wait stays |

## Left out

- The file `posixrules`: loading it is modelled as failing, so that Source/tzdb.h:1701-1783 is not reached; the `lastditch` parameter of tzparse is not part of this model.
- TzParse.Tzparse: says nothing of the state when a string is refused; the code may then have written part of it. The same holds of TzLoad.Load.
- TzLookup.FooterInForce: is for footers of which no kept year runs into the next; for others there is no result on what lookups in the footer's part tell.
- TzEver.FooterForEver: is for files without leap seconds and for such footers.
- TzWhole.WrittenIsShown: is for files without leap seconds and for times not folded; with leap seconds PosixTime.LocalWithLeaps tells the clock, and with a footer TzLookup.FooterInForce and FooterOnly.FooterIsAll do.
- FooterOnly.FooterIsAll: is for usual rules and for files without transitions and leap seconds of their own; names are left to TzLookup.FooterTypes.
- CivilTime.Timesub: takes `y - EPOCH_YEAR` and its multiples (Source/tzdb.h:2013) as mathematical integers; the code does not guard them within 70 of the least year.
- LocalTime.Fold: takes years times AVGSECSPERYEAR as a mathematical integer; in the code it can overflow within about 400 years of the least 64-bit time.
- Times of 32 bits: the branches for a narrower or unsigned `time_t`.
- Files are given as bytes: opening, reading and the search path of tzload are left out. The magic number is not checked, as in the code.
- The abbreviation scrubber and the retries of tzloadbody without it.
- LocalTime.Localsub: gives the index of the abbreviation instead of its address.
- CharSequence.GSeq.Compare: two different objects do not share their characters; the caller of the code never makes such a pair.
- CharSequence.GSeq.Normalize: asks for the room of MAXDEC units a unit, and for tables without circles and with short decompositions; the nul that the code puts after the content before ordering is modelled, one after removal of repeated marks is not written by the code.
- The tables themselves (decomposition, combining class, lower case) are parameters.
- CharOrder.CodeOrdersIff: is for marks that normalising sets; changing the case of a sequence already marked, as the composed search and comparison do, is left out with them.
- Composed search and comparison (Source/GSeq.h:558-640 and 861-1141): they rest on NSString methods that are not part of this model. Search.CompareRange is for strings of 16-bit units; the branches for 8-bit strings differ in how they fold case.
- Whether a port can be bound, and what socket, setsockopt and bind say on the way, is one given truth value for each request.
- NameTable.NameArray.Register: memory that cannot be had ends the program and is left out, as in all of gdomap.
- NameList.NamesReply: the count of bytes is taken to fit an int; the code does not guard it.
- NameList.ListNames: asks that records are whole; the client trusts the server in this.
- Requests.NameServer.HandleRequest: is for connections; over UDP a probe from a server is answered as in module Probes instead. The count of bytes in a reply is taken to fit an int.
- Probes.Server.Receive: messages other than PROBE, PREPLY and their short answer are left to the module Requests; addresses in messages are kept as numbers and not as bytes.
- init_probe: which addresses are probed is left open, as a step that queues any probes that name an address of the sender.
- ProbeNet.ExchangeInforms: a reply sent to a broadcast address is left out; what the two sides hear, each by its own clock, is forgotten only by a later look at the list.
- ProbeNet.TrafficEnds: the network delivers a message to at most as many servers as there are, and makes no copies later.
- Channels.ChannelTable.HandleRead: is for a connection that is being read, as the loop over descriptors calls it; the message logged for an unknown one is left out. The same holds of HandleWrite.
- Channels.ChannelTable: lists of descriptor entries are sequences; stale contents of list slots and freed buffers, and descriptors from FD_SETSIZE on, are left out.
- UdpQueue.Queue: the linked list is a sequence.
- Names of interfaces, configuration files, jails, logging, signals and command line of gdomap.
