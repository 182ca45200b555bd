# Dorm duty board, modelled in Dafny

The dorm duty board is a single-page app. It shows one week at a time,
Sunday to Saturday. It names the group of seniors on duty that week, chosen by
rotating through a roster read from a plain-text groups file. It also keeps a
table of who covers each night, which is filled by dragging names onto the
day cards. This project models the logic behind those screens in Dafny, and
proves what the page relies on:

- which week is shown and how weeks are counted;
- which group the rotation picks;
- how the groups file is parsed;
- how a drop or a click changes the assignment table.

Modules, one per concern:

- `Week` (`week.dfy`): dates are day numbers. Day 0 is Sunday 4 January 1970,
  so the day of the week is the day number modulo 7. `WeekStart` is
  `getWeekStart`, `WeekOffset` is `getWeekOffset`, and `WeekDates` is the
  seven-day loop of `renderCalendar`.
- `Rotation` (`rotation.dfy`): JavaScript's remainder operator, the rotation
  index `((offset % n) + n) % n`, and `renderGroup`'s choice of group.
- `Text` (`text.dfy`): the string operations the parser is built from.
  `trim` and `\s` use JavaScript's WhiteSpace and LineTerminator code points.
  Also `split` with a one-character separator, and `.map(trim).filter(Boolean)`.
- `Roster` (`roster.dfy`): `parseGroups`. The label pattern
  `/Group\s*(\d+)/i` is modelled by a scanner, and proved to agree with a
  declarative reading of the pattern. The `i` flag is modelled as ASCII case
  folding. Without the `u` flag, JavaScript never folds a non-ASCII character
  onto an ASCII one, so this is exact for the ASCII word "Group".
- `RosterExample` (`roster_example.dfy`): a three-line groups file parsed end
  to end.
- `Assignments` (`assignments.dfy`): the assignment table (week key to day key
  to name). The drop and click handlers are modelled as functions from the old
  table to the new one.
- `Board` (`board.dfy`): the class `DutyBoard` holds the page's mutable state:
  the week shown, the roster, and the stored table. Its methods are the
  navigation buttons, `loadGroups`, the drop handler and the click handler.
  Each method is proved against the functions above.
- `Wrappers` (`wrappers.dfy`): `Option`.

## Model

| member | source | states |
|---|---|---|
| Week.DayOfWeek | app.js:16 | `getDay` is a number from 0 (Sunday) to 6 |
| Week.DayName | app.js:103 | the card shows one of the seven day names, and "Sunday" exactly on Sundays |
| Week.WeekStart | app.js:13-19 | the week start is a Sunday, on or before the given day and less than seven days before it |
| Week.WeekStartUnique | app.js:13-19 | any Sunday at most six days before a day is that day's week start, so every day is in exactly one week |
| Week.WeekStartIdempotent | app.js:13-19 | the week start of a week start is itself |
| Week.FloorDiv | app.js:31 | `Math.floor(a / b)` for a positive b is the q with b*q <= a < b*q + b |
| Week.WeekOffset | app.js:29-32 | the millisecond offset rounded down counts whole weeks from the base week: 7k <= days since base < 7k + 7, so it is negative before the base week |
| Week.WeekOffsetUnique | app.js:29-32 | any k that brackets the day that way is its offset |
| Week.WeekOffsetOfSunday | app.js:29-32 | for a Sunday the offset is exact: 7 times the offset is the distance in days; the offset is negative exactly for weeks before the base week |
| Week.WeekOffsetShift | app.js:29-32 | moving a day by n whole weeks moves its offset by exactly n |
| Week.BaseWeekIsWeekZero | app.js:2 | the base date is a Sunday and its week has offset 0 |
| Week.WeekOffsetAsWritten | app.js:29-32 | the code's offset is the number of whole weeks, rounded down, in the real millisecond distance between the two local midnights, where a clock change since the base week adds or removes its length |
| Week.AsWrittenOnSunday | app.js:29-32 | for a week start, the code's offset equals the calendar-week count when the clocks have been put back or not changed since the base week, and is one less when they have been put forward |
| Week.AsWrittenWithoutClockChange | app.js:29-32 | with no clock change since the base week, the code's offset is the calendar-week count |
| Week.DaylightSavingRepeatsWeek | app.js:29-32 | after clocks go forward, the code counts two consecutive weeks as week 9, where calendar weeks give 9 and 10 |
| Week.WeekDates | app.js:174-178 | the seven dates shown are the week start plus 0 to 6; for a Sunday start they are named Sunday to Saturday in order and all belong to that week |
| Rotation.JsRemainder | app.js:86 | JavaScript's `%` for a positive divisor has the sign of the dividend, is smaller than the divisor in size, and differs from the dividend by a multiple of it |
| Rotation.GroupIndex | app.js:86 | the rotation index lies in [0, n) and equals the mathematical offset modulo n, for negative offsets too |
| Rotation.GroupIndexBeforeBase | app.js:86 | one week before the base week, with three groups, index 2 is on duty |
| Rotation.GroupIndexPeriodic | app.js:86 | the index repeats every n weeks, forwards and backwards |
| Rotation.GroupIndexNext | app.js:85-87 | the next week's index is the current one plus 1, wrapping to 0 after the last group |
| Rotation.OnDuty | app.js:78-93 | there is no group on duty exactly when the roster is empty; otherwise the group on duty is the one at the week offset modulo the number of groups, one of the roster's groups |
| Rotation.OnDutyPeriodic | app.js:85-87 | the group on duty repeats every (number of groups) weeks |
| Rotation.OnDutyNextWeek | app.js:85-87 | seven days later the next group of the roster is on duty, and the first group follows the last |
| Text.IsWhitespace | app.js:186-190 | the characters trim strips and `\s` matches; none of them is a digit, an ASCII letter, a colon or a comma |
| Text.Trim | app.js:186 | a trimmed string neither starts nor ends with whitespace |
| Text.TrimCutsWhitespace | app.js:186 | trim returns a contiguous part of the input; everything it removes before and after that part is whitespace |
| Text.TrimmedIsFixed | app.js:186 | a string with no whitespace at either end is returned unchanged |
| Text.TrimIdempotent | app.js:186 | trimming twice is trimming once |
| Text.Split | app.js:185 | split yields at least one piece, and no piece contains the separator |
| Text.SplitJoin | app.js:185 | joining the pieces with the separator gives back the input |
| Text.SplitWithoutSeparator | app.js:189 | a string without the separator is one piece |
| Text.SplitAtFirst | app.js:189 | the text before the first separator is the first piece, and the rest is split on its own |
| Text.NonEmptyTrimmed | app.js:186-187 | the kept pieces are no more than the input pieces, and each is non-empty and trimmed |
| Text.NonEmptyTrimmedMembers | app.js:186-187 | a string is kept exactly when it is non-empty and is the trim of some input piece |
| Text.NonEmptyTrimmedSingle | app.js:186-187 | one piece is kept, trimmed, unless it trims to nothing |
| Text.NonEmptyTrimmedAppend | app.js:186-187 | the pieces are handled one at a time in order: the result for a + b is the result for a followed by the result for b |
| Text.DecimalString | app.js:191 | the decimal rendering of n is non-empty digits, has no leading zero unless it is "0", and reads back as n |
| Roster.GroupWordAnyCase | app.js:190 | the `i` flag: a string matches "Group" exactly when it has five characters, each the corresponding letter in upper or lower case ("group", "GROUP", "gRoUp") |
| Roster.MatchAt | app.js:190 | what the scanner captures is a non-empty run of decimal digits |
| Roster.MatchAtSound | app.js:190 | what the scanner finds at a position matches the pattern `Group\s*(\d+)` (case-insensitive) there |
| Roster.MatchAtComplete | app.js:190 | wherever the pattern matches, the scanner finds exactly its greedy digit capture |
| Roster.FirstMatchFrom | app.js:190 | the position found is a match and no earlier position matches; none found means no position matches |
| Roster.LabelMatch | app.js:190 | there is no capture exactly when the pattern matches nowhere in the label text; a capture is digits |
| Roster.LineLabel | app.js:190-191 | a line's label is always a non-empty string of digits |
| Roster.LineMembers | app.js:192-194 | every member name is non-empty and trimmed |
| Roster.ParseLine | app.js:188-196 | every parsed line has a digit label and clean member names; a line without a colon has no members |
| Roster.LabelFromPattern | app.js:189-191 | the label is the capture of the leftmost match in the text before the first colon |
| Roster.LabelFromPosition | app.js:191 | without a match before the first colon, the label is the line's 1-based position among the non-empty lines, spelled as `${index + 1}` spells it (shortest decimal, no leading zero) |
| Roster.ColonPieces | app.js:189 | the label part is the text before the first colon and the member part is the text up to the second colon |
| Roster.MembersBetweenColons | app.js:192-194 | the members are the comma-separated names between the first and second colon, trimmed, empty ones dropped |
| Roster.SecondColonIgnored | app.js:189 | whatever follows a second colon does not change the parsed group |
| Roster.ParseLines | app.js:188-196 | every group of the labelled lines is well formed |
| Roster.LabelledLines | app.js:184-196 | one group per non-empty trimmed line of the text, each parsed with its position among those lines |
| Roster.WithMembers | app.js:197 | a group is kept exactly when it has members, and the kept groups keep their order |
| Roster.WithMembersSingle | app.js:197 | one group is kept exactly when it has members |
| Roster.WithMembersAppend | app.js:197 | the groups are filtered one at a time in order: the result for a + b is the result for a followed by the result for b |
| Roster.ParseGroups | app.js:183-199 | at most five groups; each has members, is well formed and comes from a line of the text |
| Roster.ParseGroupsFirstFive | app.js:197-198 | the roster is exactly the first five groups that have members, or all of them when there are fewer |
| Roster.ParseGroupsInOrder | app.js:183-199 | the groups appear in the order of their lines |
| Roster.ParseGroupsComplete | app.js:197-198 | when fewer than five groups result, every line that names someone has its group in the roster |
| RosterExample.ParseGroupsExample | app.js:183-199 | "Group 2: Ann, Bo", "invalid line", "Group 1: Cid" parse to group 2 (Ann, Bo) then group 1 (Cid); the line naming no one is dropped |
| Assignments.Occupant | app.js:115-117 | a night counts as taken exactly when its week has an entry for it holding a non-empty name, and then that name is the occupant |
| Assignments.WeekOf | app.js:145 | a week without an entry reads as empty; otherwise its nights and names are the entry's |
| Assignments.DropVerdict | app.js:140-150 | a drop is ignored exactly when no name was dragged; it is refused exactly when the night is taken and the card did not come from that night |
| Assignments.AfterDrop | app.js:144-157 | an ignored or refused drop changes nothing; an accepted one puts the name on the night, removes the card's former night in that week when the card came from another night (`IsMoveFrom`, the condition of app.js:152: a source that is neither empty, nor the group list, nor this same night), and leaves every other night and week as it was |
| Assignments.AfterRemove | app.js:64-68 | after a click the night has no entry, the week's entry exists, and every other night and week is as it was |
| Assignments.RemoveIdempotent | app.js:64-68 | clicking twice is clicking once |
| Assignments.TransitionsKeepNames | app.js:140-156 | if every stored name is non-empty before a drop or a click, it still is after |
| Assignments.MoveKeepsCount | app.js:152-156 | moving a name to a night with no entry keeps the number of entries of the week, so a move is not a copy |
| Assignments.PlaceAddsOne | app.js:152-156 | dragging a name from the group list to a night with no entry adds exactly one entry |
| Assignments.DropOnOwnSlot | app.js:147-156 | dropping a card back on its own night leaves the table unchanged |
| Assignments.ConflictExample | app.js:147-150 | dropping Bob on Alice's night is refused and the table is unchanged |
| Assignments.MoveExample | app.js:152-157 | dragging Alice from 8 to 9 January leaves her on the 9th only |
| Board.DutyBoard.constructor | app.js:10-11 | the page opens on the Sunday week start of today, with no groups and the stored table |
| Board.DutyBoard.PreviousWeek | app.js:215-218 | the week shown moves exactly seven days back, stays a Sunday, and its offset drops by one |
| Board.DutyBoard.NextWeek | app.js:220-223 | the week shown moves exactly seven days on, stays a Sunday, and its offset rises by one |
| Board.DutyBoard.LoadGroups | app.js:201-213 | the roster becomes the parse of the fetched text, or is empty when the fetch failed; it keeps at most five groups |
| Board.DutyBoard.OnDuty | app.js:78-93 | no group is on duty exactly when the roster is empty; otherwise it is the roster's group at the shown week's offset modulo the number of groups |
| Board.DutyBoard.Drop | app.js:135-160 | the handler's outcome is the drop verdict, and the new stored table is AfterDrop of the old one |
| Board.DutyBoard.Remove | app.js:63-70 | the new stored table is AfterRemove of the old one |

## Left out

- Rendering is not modelled: the DOM, day cards, drag styling, the alert and the empty-state messages. `Board.DutyBoard.Drop` returns the outcome the alert reports.
- `localStorage` and JSON are not modelled. The field `assignments` stands for the stored table, which every handler loads and saves whole. A stored value that is not valid JSON, on which `JSON.parse` throws, is not modelled.
- `fetch` is not modelled. Its result is the parameter of `LoadGroups`: `None` covers both a response that is not ok and a network error. The asynchronous order of the first render and the groups load is not modelled.
- `Date` objects are replaced by day numbers. `new Date()` is the constructor's `today` parameter. The time of day is dropped, as `setHours(0, 0, 0, 0)` does.
- Time zones and daylight saving affect `getWeekOffset` only through `Week.WeekOffsetAsWritten`, which takes both UTC offsets as parameters (see Findings). Everywhere else weeks are counted in calendar days.
- `formatDate` and `formatISO` (`toLocaleDateString`, `toISOString`) are not modelled. Week and day keys are opaque strings. That `toISOString` gives the UTC date, which can differ from the local date a key stands for, is not modelled.
- Floating point is not modelled. `diffMs / MS_PER_WEEK` is a double, but both operands are whole numbers far below 2^53, so the floor is modelled as integer division.
- Rotation.JsRemainder: defined for a positive divisor only. The one call site divides by `groups.length` after checking the roster is not empty.
- Strings are sequences of Unicode scalar values, whereas JavaScript strings are UTF-16 code units. Lone surrogates cannot be represented, and the `i` flag's folding is modelled for ASCII only (see the `Roster` note above).
- The drag payload is given as the `name` and `source` parameters of `Drop`. How `dragstart` sets them (the name, plus `"member-list"` or the card's day key) is not modelled.

## Findings

| source | as written | input that shows it | evidently intended | confidence | as-written member | corrected member |
|---|---|---|---|---|---|---|
| app.js:29-32 | the offset is the floor of the difference between two local-midnight timestamps, so a daylight-saving change since the base week shifts it by an hour | a zone at UTC-5 in winter and UTC-4 in summer (clocks forward on Sunday 10 March 2024): the week of 17 March is ten weeks less one hour after 7 January, so its offset is 9, the same as the week of 10 March; the same group is on duty twice running, and after clocks go back a group is skipped | count whole calendar weeks, so that consecutive weeks always have consecutive offsets | not executed; high | Week.DaylightSavingRepeatsWeek | Week.WeekOffsetShift |
