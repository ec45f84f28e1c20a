# Availability encoding and record loading (read_input.py)

This project models, in Dafny, the input side of a volunteer-to-teacher
scheduling tool. The tool reads a students sheet and a teachers sheet. Each
row becomes a `Student` or a `Teacher` record. The record's weekly
availability is encoded as a list of integer time-slot ids. The records are
then deduplicated by identity.

The model follows `read_input.py`:

- `get_slot_id` (module `SlotCodec`) encodes a pair of interval tokens such
  as `"1:00pm-1:30pm"` and `"1:30pm-2:00pm"`. For a start hour on the
  12-hour clock the result is a half-hour index from 0 to 47: 24 is added
  for "pm", twice the hour is added with 12 read as 0, and 1 is added for a
  half past. The sentinel -1 means the pair was rejected.
- `generateListOfTimeIntervalIDs` (module `WeekParser`) splits five weekday
  strings on `,` and walks each weekday's tokens. Weekday `i` is offset by
  `48 * i`.
  - Student mode encodes every adjacent pair and drops the sentinel.
  - Teacher mode encodes every non-empty token against its own reversal
    `end-start`. It does not drop the sentinel.
- The `Student` and `Teacher` classes (module `Records`) are modelled with
  their constructors, their identity (`__eq__`, `__hash__`) and the mapping
  from one sheet row to one record.
- `list(set(records))` (module `Dedup`) is modelled as a relation that
  leaves the survivor and the order open. The function that implements it
  keeps the first record of each identity.
- `readInStudentsFile` and `readInTeachersFile` (module `Loader`) are
  modelled on rows that have already been read.

Module `PyText` holds the Python string behaviour the code relies on:
`str.split`, `str.strip`, `in` on strings, slicing, and `int()` on decimal
text.

Where Python raises (`IndexError`, `ValueError`), the model has a
precondition that excludes the inputs on which the code raises. These are
`SlotDefined`, `TeacherTokenDefined`, `WeekDefined`, `StudentRowDefined` and
`TeacherRowDefined`. They also exclude the `int()` spellings listed under
`PyText.PyInt` in "Left out", on which Python does not raise.

## Where the code and its comments differ

The model follows the code in each of these cases:

- The docstring of `generateListOfTimeIntervalIDs` (read_input.py:80-83)
  says the ids run from 1 to 239 with 1 meaning 12am Monday, and are
  unique. The code gives 0 for 12:00am Monday (`SlotCodec.ExampleMidnight`).
  For intervals on the 12-hour clock whose teacher tokens hold exactly one
  `-`, the ids run from 0 to 239 (`WeekParser.WeekIdsInRange`). Outside that
  hypothesis the range is not promised: a teacher token with more dashes
  gives -1 on Monday (next bullet). A repeated token gives a
  repeated id (`WeekParser.TeacherDayRepeats`).
- In teacher mode, a token with two or more `-` is rejected against its
  reversal. Its `-1` is not filtered out, so `offset - 1` is appended
  (`WeekParser.TeacherExtraDash`). The comment at read_input.py:109 says
  this cannot happen. The model keeps the behaviour as written.

## Model

| member | source | states |
|---|---|---|
| PyText.Split | read_input.py:85-89 | `s.split(sep)` is never empty, no piece holds the separator, and joining the pieces with the separator gives back `s` |
| PyText.SplitJoin | read_input.py:115-116 | splitting separator-free pieces after joining them gives the same pieces back (the other half of the round trip) |
| PyText.Strip | read_input.py:118 | `strip()` returns an infix of its argument with only whitespace removed around it, and its result neither starts nor ends with whitespace |
| PyText.NoSubstringWithoutFirstChar | read_input.py:123 | `'pm' in s` is false whenever `s` holds no `p` |
| PyText.Take | read_input.py:129 | `s[0:2]` is a prefix of `s` whose length is the smaller of 2 and `len(s)` |
| PyText.PyInt | read_input.py:60 | `int()` raises on any text holding one of the separators U+001C to U+001F, and a result from text without `-` is never negative |
| PyText.PyIntShow | read_input.py:126-129 | `int()` reads back the decimal text of every natural number |
| PyText.PyIntPadded | read_input.py:60 | `int()` reads back the decimal text of every natural number when whitespace other than U+001C to U+001F surrounds it |
| SlotCodec.StartSlot | read_input.py:122-130 | the half-hour index of a start time is non-negative and has the parity of "half past". For an hour on the 12-hour clock it is below 48, at least 24 exactly when the text holds "pm", and holds the hour modulo 12 |
| SlotCodec.HourNonNegative | read_input.py:125-128 | the hour of a readable start time without `-` is never negative |
| SlotCodec.SlotId | read_input.py:114-131 | `get_slot_id` returns -1 exactly when the two tokens are not adjacent. Otherwise it returns the non-negative index of the first token's start |
| SlotCodec.SlotIdIgnoresSecond | read_input.py:114-131 | once a pair is accepted, the second token does not affect the result |
| SlotCodec.SlotIdInDay | read_input.py:122-131 | an accepted pair whose start hour is on the 12-hour clock encodes to an index in 0..47 |
| SlotCodec.ReverseIntervalAdjacent | read_input.py:107-110 | a teacher token with exactly one `-` is always accepted against its reversal, and encodes its own start |
| SlotCodec.ReverseIntervalRejected | read_input.py:107-119 | a teacher token with two or more `-` is always rejected against its reversal, so the encoding returns -1 |
| SlotCodec.StartSlotOfTimeText | read_input.py:122-130 | reading the clock text (such as "12:30am" or "1:00pm") of index `k` gives back `k` |
| SlotCodec.ClockTokensAdjacent | read_input.py:114-131 | a token `a-b` followed by a token `b-c` is accepted and encodes `a` |
| SlotCodec.HalfHourRoundTrip | read_input.py:114-131 | two consecutive half-hour tokens encode the index of the first one, for every index of the day |
| SlotCodec.HourRoundTrip | read_input.py:107-110 | an hour-long token against its reversal encodes the index of its start, for every index of the day |
| SlotCodec.ExampleOnePm | read_input.py:114-131 | "1:00pm-1:30pm" followed by "1:30pm-2:00pm" encodes 26 |
| SlotCodec.ExampleMidnight | read_input.py:114-131 | "12:00am-12:30am" followed by "12:30am-1:00am" encodes 0, not the 1 the docstring gives |
| WeekParser.DropRejected | read_input.py:100-101 | the values kept are exactly those of the input other than -1 |
| WeekParser.DropRejectedAppend | read_input.py:100-101 | dropping -1 from a concatenation is dropping it from each part and concatenating, so the kept values stay in order, repeats included |
| WeekParser.DropRejectedNone | read_input.py:100-101 | a list without -1 is kept whole |
| WeekParser.NonEmpty | read_input.py:104-106 | the tokens kept are exactly the non-empty ones |
| WeekParser.PairDayMembership | read_input.py:98-101 | for any pair encoder, an id is emitted exactly when some adjacent pair encodes to a value other than -1 and the id is that value plus the offset |
| WeekParser.PairDayStep | read_input.py:98-101 | one more pass of the pair loop appends the shifted value of the next pair, unless that value is -1 |
| WeekParser.StudentDayMembership | read_input.py:96-101 | in student mode, an id is emitted for a weekday exactly when some adjacent pair of its tokens is accepted and encodes that id minus the offset. The sentinel never reaches the output |
| WeekParser.StudentShortDay | read_input.py:98 | a weekday with fewer than two tokens (such as the empty string) contributes no id |
| WeekParser.PairWalk | read_input.py:98-101 | the student loop, for any pair encoder, emits exactly the pair walk of the weekday |
| WeekParser.StudentDay | read_input.py:96-101 | the student loop with `get_slot_id` emits exactly the student ids of the weekday |
| WeekParser.TokenDayStep | read_input.py:104-110 | one more pass of the teacher loop appends the shifted value of a non-empty token and nothing for an empty one |
| WeekParser.TeacherTokenId | read_input.py:107-110 | the loop body on a token with exactly one `-` and a readable start gives the offset plus the index of the token's start. On a token with two or more `-` it gives `offset - 1` |
| WeekParser.TeacherDay | read_input.py:102-110 | the teacher loop emits exactly one shifted teacher encoding per non-empty token, in order |
| WeekParser.TeacherSlotWellFormed | read_input.py:107-110 | on a token with exactly one `-` and a readable start, the teacher encoding is the index of the token's start |
| WeekParser.TeacherDayWellFormed | read_input.py:104-110 | when every non-empty token is well formed, the teacher day is the offset plus the start index of each non-empty token, in order |
| WeekParser.TeacherExtraDash | read_input.py:106-110 | a token with two or more `-` appends `offset - 1`: -1 on Monday, the last slot of the previous weekday otherwise |
| WeekParser.TeacherDayRepeats | read_input.py:104-110 | the same hour listed twice appends its id twice, so the list is not unique |
| WeekParser.Concat | read_input.py:91-112 | a value is in the joined week exactly when it is in some weekday's list |
| WeekParser.SplitDays | read_input.py:85-91 | each weekday string is split on `,` in Monday-to-Friday order |
| WeekParser.GenerateListOfTimeIntervalIds | read_input.py:79-112 | the method returns exactly the weekday lists in weekday order, each encoded in the selected mode |
| WeekParser.DayIdsInBlock | read_input.py:94-110 | for intervals on the 12-hour clock whose teacher tokens hold exactly one `-`, every id of weekday `d` lies in `48*d .. 48*d+47` |
| WeekParser.ConcatOrdered | read_input.py:91-112 | joining weekday lists that lie in their own blocks gives a list whose ids never go back to an earlier weekday |
| WeekParser.WeekIdsInRange | read_input.py:79-112 | for intervals on the 12-hour clock whose teacher tokens hold exactly one `-`, every id of the week lies in 0..239, grouped by weekday in order |
| Records.StudentIdentity | read_input.py:25-32 | student `==` is reflexive, symmetric and transitive, is false against every teacher and every other value, and holds exactly when the hashed values are equal |
| Records.TeacherIdentity | read_input.py:45-52 | the same for teacher `==` and the teacher id: false against every student and every other value |
| Records.NewStudentEquality | read_input.py:11-32 | two constructed students are equal exactly when their stripped ids are equal. Flags, seats, preferences and availability play no part |
| Records.PaddedStudentId | read_input.py:12 | any run of whitespace before and after a student id does not make a different student |
| Records.NewTeacherEquality | read_input.py:34-52 | two constructed teachers are equal exactly when stripped school followed by stripped name agree. Availability plays no part |
| Records.TeacherIdCollision | read_input.py:36-38 | two teachers with different names at different schools can share an id, so they count as one teacher |
| Records.StudentRowColumns | read_input.py:59-65 | the columns a student row is read from: id 1, driver 3 (exactly `Yes`), seats 4, Monday to Friday 5-9, returner 10 (exactly `Yes`), preferences 11 and 12. Columns 0 and 2 do not affect the record |
| Records.TeacherRowColumns | read_input.py:73-76 | the columns a teacher row is read from: name 1, school 3, Monday to Friday 7-11. No other column affects the record |
| Records.StudentRowIdentity | read_input.py:59-65 | a student's identity depends on column 1 alone, after stripping |
| Records.TeacherRowIdentity | read_input.py:73-76 | a teacher's identity depends on columns 3 and 1 alone, after stripping |
| Records.StudentRowSlots | read_input.py:64 | a student whose intervals are on the 12-hour clock gets ids in 0..239, grouped by weekday in order |
| Records.TeacherRowSlots | read_input.py:75 | a teacher whose intervals are on the 12-hour clock and whose tokens hold exactly one `-` gets ids in 0..239, grouped by weekday in order |
| Dedup.DedupFirst | read_input.py:66 | keeping the first record of each key gives a valid `list(set(...))` result: keys pairwise distinct, the same key set as the input, every survivor taken from the input |
| Dedup.DedupSize | read_input.py:66 | every valid `list(set(...))` result, whichever records survive and in whatever order, has exactly as many records as there are distinct keys |
| Dedup.DedupFirstDistinct | read_input.py:77 | a list without repeated keys is kept whole |
| Dedup.DedupFirstIdempotent | read_input.py:77 | deduplicating twice is the same as deduplicating once |
| Dedup.DedupOfDedup | read_input.py:66 | a valid deduplication of a valid deduplication of `xs` is a valid deduplication of `xs` |
| Loader.ReadInStudents | read_input.py:54-66 | the loaded students are a valid `list(set(...))` of the row students: one per distinct stripped id, each taken from a row |
| Loader.ReadInTeachers | read_input.py:68-77 | the loaded teachers are a valid `list(set(...))` of the row teachers: one per distinct school-and-name id, each taken from a row |
| Loader.LoadedRecords | read_input.py:54-77 | in terms of the rows: every survivor is the record of some row, every row's record shares its identity with exactly one survivor, and there are as many survivors as distinct identities among the rows |

## Left out

- Reading the CSV files (read_input.py:56-58, 70-72). The sheets are
  passed in as sequences of rows, each a sequence of field strings. The
  `csv` module's quoting rules are not modelled.
- The `__main__` block (read_input.py:133-150). It prints the lists and
  reports duplicate ids. It is I/O and a diagnostic, not part of loading.
- `__repr__` (read_input.py:21-23, 41-43). It only renders text.
- Hash values. Only the value passed to `hash()` is modelled (`StudentKey`,
  `TeacherKey`), which is what makes `set` treat two records as one.
- Python exceptions. `IndexError` on a short row, on a teacher token
  without `-` or on a start time without `:` (read_input.py:129), and
  `ValueError` from `int()`, are excluded by preconditions
  and are not modelled as results.
- `isinstance` against subclasses. The model knows only students, teachers
  and "anything else" (`Records.Value`).
- PyText.PyInt: `int()` is modelled as strip, an optional sign and ASCII
  digits, and it rejects text holding U+001C to U+001F, as CPython does.
  Underscores between digits and non-ASCII decimal digits, which Python
  also accepts, are not modelled. Such text counts as raising, so
  `StudentRowDefined` excludes a few rows that Python loads.
- Dedup.DedupFirst: Python leaves the iteration order of a set to the
  implementation. The contracts of `Loader.ReadInStudents` and
  `Loader.ReadInTeachers` therefore do not fix the order of the result or
  which of several equal records survives. The implementing function keeps
  the first of each, in order of first appearance.
- Loader.ReadInStudents: the contract relates the result to the row
  students through `IsDedupOf`. It does not restate the per-row
  consequences with `Student ==`. `Loader.LoadedRecords` states them in
  terms of the identity key, and `Records.StudentIdentity` shows that the
  key is exactly what `==` compares.
