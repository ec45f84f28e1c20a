/** `get_slot_id`: turns two adjacent interval tokens such as
    "1:00pm-1:30pm" and "1:30pm-2:00pm" into the index of the half hour at
    which the first one starts (0 = 12:00am, 47 = 11:30pm), or -1 when the
    tokens are malformed or not adjacent. */
module SlotCodec {
  import opened PyText

  /** The sentinel `get_slot_id` returns for a rejected pair. */
  const Rejected: int := -1

  /** Two tokens are accepted when each splits into exactly two parts on '-'
      and the first one's end equals the second one's start, both stripped. */
  predicate Adjacent(interval1: string, interval2: string) {
    var a := Split(interval1, '-');
    var b := Split(interval2, '-');
    |a| == 2 && |b| == 2 && Strip(a[1]) == Strip(b[0])
  }

  /** The start time of a token: its text before the first '-'. */
  function StartOf(interval: string): (r: string)
    ensures '-' !in r
  {
    Split(interval, '-')[0]
  }

  /** The ':'-separated fields of a stripped start time. */
  function TimeFields(start: string): seq<string> {
    Split(Strip(start), ':')
  }

  /** A start time that the hour/minute arithmetic can read without Python
      raising: an integer hour, a ':' and an integer in the first two
      characters after it. */
  predicate StartReadable(start: string) {
    var f := TimeFields(start);
    PyInt(f[0]).Some? && |f| >= 2 && PyInt(Take(f[1], 2)).Some?
  }

  function Hour(start: string): int
    requires StartReadable(start)
  {
    PyInt(TimeFields(start)[0]).value
  }

  predicate IsHalfPast(start: string)
    requires StartReadable(start)
  {
    PyInt(Take(TimeFields(start)[1], 2)) == Some(30)
  }

  /** Python's `'pm' in start`, on the unstripped start text. */
  predicate IsPm(start: string) {
    HasSubstring(start, "pm")
  }

  lemma HourNonNegative(start: string)
    requires StartReadable(start) && '-' !in start
    ensures Hour(start) >= 0
  {
    StripChars(start, '-');
    SplitChars(Strip(start), ':', '-');
  }

  /** The half-hour index of a start time. For a 12-hour clock reading
      (hour at most 12) it decodes back into its parts: the upper half of
      the day is "pm", the parity is the half hour and the rest is the
      hour with 12 read as 0. */
  function StartSlot(start: string): (r: int)
    requires StartReadable(start) && '-' !in start
    ensures r >= 0
    ensures r % 2 == (if IsHalfPast(start) then 1 else 0)
    ensures Hour(start) <= 12 ==>
              && r < 48
              && (r >= 24 <==> IsPm(start))
              && (r % 24) / 2 == Hour(start) % 12
  {
    HourNonNegative(start);
    var pm := IsPm(start);
    var hour := Hour(start);
    var half := IsHalfPast(start);
    var r := (if pm then 24 else 0) + 2 * (if hour == 12 then 0 else hour) + (if half then 1 else 0);
    SlotArithmetic(pm, hour, half, r);
    r
  }

  lemma SlotArithmetic(pm: bool, hour: int, half: bool, r: int)
    requires hour >= 0
    requires r == (if pm then 24 else 0) + 2 * (if hour == 12 then 0 else hour) + (if half then 1 else 0)
    ensures && r >= 0
      && r % 2 == (if half then 1 else 0)
      && (hour <= 12 ==> r < 48 && (r >= 24 <==> pm) && (r % 24) / 2 == hour % 12)
  {
  }

  /** What `get_slot_id` needs to return without raising: a pair it rejects,
      or one whose first start time is readable. */
  predicate SlotDefined(interval1: string, interval2: string) {
    Adjacent(interval1, interval2) ==> StartReadable(StartOf(interval1))
  }

  /** `get_slot_id(interval1, interval2)`. */
  function SlotId(interval1: string, interval2: string): (r: int)
    requires SlotDefined(interval1, interval2)
    ensures r == Rejected <==> !Adjacent(interval1, interval2)
    ensures r != Rejected ==> r >= 0 && r == StartSlot(StartOf(interval1))
  {
    if !Adjacent(interval1, interval2) then Rejected
    else StartSlot(StartOf(interval1))
  }

  /** Beyond the adjacency test, the second token plays no part. */
  lemma SlotIdIgnoresSecond(interval1: string, interval2: string, other: string)
    requires Adjacent(interval1, interval2) && Adjacent(interval1, other)
    requires SlotDefined(interval1, interval2)
    ensures SlotDefined(interval1, other)
    ensures SlotId(interval1, interval2) == SlotId(interval1, other)
  {
  }

  /** For a start hour on the 12-hour clock, an accepted pair lands in one day. */
  lemma SlotIdInDay(interval1: string, interval2: string)
    requires SlotDefined(interval1, interval2) && Adjacent(interval1, interval2)
    requires Hour(StartOf(interval1)) <= 12
    ensures 0 <= SlotId(interval1, interval2) < 48
  {
  }

  /** The token `end-start` built from a teacher token `start-end`. */
  function ReverseInterval(interval: string): string
    requires |Split(interval, '-')| >= 2
  {
    var c := Split(interval, '-');
    c[1] + "-" + c[0]
  }

  /** A token with exactly one '-' is always adjacent to its reverse, so the
      teacher encoding never meets the sentinel on such a token and yields
      the slot of the token's own start. */
  lemma ReverseIntervalAdjacent(interval: string)
    requires |Split(interval, '-')| == 2
    ensures Adjacent(interval, ReverseInterval(interval))
    ensures StartReadable(StartOf(interval)) ==>
              SlotId(interval, ReverseInterval(interval)) == StartSlot(StartOf(interval))
  {
    var c := Split(interval, '-');
    SplitTwo(c[1], c[0], '-');
  }

  /** A token with two or more '-' is rejected against its reverse, so the
      teacher encoding meets the sentinel -1 on it. */
  lemma ReverseIntervalRejected(interval: string)
    requires |Split(interval, '-')| >= 3
    ensures SlotDefined(interval, ReverseInterval(interval))
    ensures SlotId(interval, ReverseInterval(interval)) == Rejected
  {
  }

  // Canonical clock text, used to state what the encoding means.

  /** The 12-hour clock hour shown for half-hour index `k`. */
  function ClockHour(k: nat): nat
    requires k < 48
  {
    var h := (k / 2) % 12;
    if h == 0 then 12 else h
  }

  function MinuteText(k: nat): string {
    if k % 2 == 1 then "30" else "00"
  }

  function Meridiem(k: nat): string {
    if k < 24 then "am" else "pm"
  }

  /** The clock text of half-hour index `k`, such as "12:00am" or "1:30pm". */
  function TimeText(k: nat): string
    requires k < 48
  {
    Show(ClockHour(k)) + ":" + MinuteText(k) + Meridiem(k)
  }

  /** The half-hour interval token starting at index `k`. */
  function HalfHourToken(k: nat): string
    requires k < 48
  {
    ClockToken(k, (k + 1) % 48)
  }

  /** The hour-long interval token starting at index `k`. */
  function HourToken(k: nat): string
    requires k < 48
  {
    ClockToken(k, (k + 2) % 48)
  }

  lemma TimeTextParts(k: nat)
    requires k < 48
    ensures TimeText(k) == Show(ClockHour(k)) + [':'] + (MinuteText(k) + Meridiem(k))
    ensures ':' !in MinuteText(k) + Meridiem(k)
    ensures forall c :: c in Show(ClockHour(k)) ==> IsDigit(c) && !IsSpace(c)
  {
    NoSpaceInDigits(Show(ClockHour(k)));
  }

  /** A clock text holds no separator of the sheet, and before noon no 'p'. */
  lemma TimeTextChars(k: nat)
    requires k < 48
    ensures '-' !in TimeText(k) && ',' !in TimeText(k)
    ensures k < 24 ==> 'p' !in TimeText(k)
  {
    TimeTextParts(k);
    assert k < 24 ==> Meridiem(k) == "am";
  }

  /** A clock text has no whitespace to strip. */
  lemma TimeTextStripped(k: nat)
    requires k < 48
    ensures Strip(TimeText(k)) == TimeText(k)
  {
    TimeTextParts(k);
    var t := TimeText(k);
    assert t[0] == Show(ClockHour(k))[0];
    assert t[|t| - 1] == 'm';
    StripUnchanged(t);
  }

  lemma TimeTextFields(k: nat)
    requires k < 48
    ensures TimeFields(TimeText(k)) == [Show(ClockHour(k)), MinuteText(k) + Meridiem(k)]
  {
    var h := Show(ClockHour(k));
    var rest := MinuteText(k) + Meridiem(k);
    TimeTextParts(k);
    TimeTextChars(k);
    TimeTextStripped(k);
    assert ':' !in h;
    SplitTwo(h, rest, ':');
  }

  lemma ClockHourWithinHalf(k: nat)
    requires k < 48
    ensures ClockHour(k) % 12 == (k % 24) / 2
  {
    if k < 24 {
      assert k % 24 == k && (k / 2) % 12 == k / 2;
    } else {
      assert k % 24 == k - 24 && (k - 24) / 2 == k / 2 - 12;
      assert (k / 2) % 12 == k / 2 - 12;
    }
  }

  /** Two half-hour indexes with the same half of the day, the same parity
      and the same hour within the half are equal. */
  lemma DecodeUnique(r: int, k: int)
    requires 0 <= r < 48 && 0 <= k < 48
    requires (r >= 24 <==> k >= 24) && r % 2 == k % 2 && (r % 24) / 2 == (k % 24) / 2
    ensures r == k
  {
  }

  lemma TimeTextHourField(k: nat)
    requires k < 48
    ensures PyInt(TimeFields(TimeText(k))[0]) == Some(ClockHour(k) as int)
  {
    TimeTextFields(k);
    PyIntShow(ClockHour(k));
  }

  lemma TimeTextMinuteField(k: nat)
    requires k < 48
    ensures |TimeFields(TimeText(k))| >= 2
    ensures PyInt(Take(TimeFields(TimeText(k))[1], 2)) == Some(if k % 2 == 1 then 30 else 0)
  {
    var mm := MinuteText(k);
    TimeTextFields(k);
    var f := TimeFields(TimeText(k));
    assert f[1] == mm + Meridiem(k);
    assert Take(f[1], 2) == mm;
    MinuteTextValue(k);
  }

  lemma MinuteTextValue(k: nat)
    ensures PyInt(MinuteText(k)) == Some(if k % 2 == 1 then 30 else 0)
  {
    if k % 2 == 1 {
      PyIntShow(30);
      assert Show(30) == "30";
    } else {
      StripUnchanged("00");
      assert DigitsValue("00") == 0;
    }
  }

  lemma TimeTextReadable(k: nat)
    requires k < 48
    ensures StartReadable(TimeText(k)) && '-' !in TimeText(k)
    ensures Hour(TimeText(k)) == ClockHour(k)
    ensures IsHalfPast(TimeText(k)) <==> k % 2 == 1
  {
    TimeTextChars(k);
    TimeTextStripped(k);
    TimeTextHourField(k);
    TimeTextMinuteField(k);
  }

  lemma TimeTextPm(k: nat)
    requires k < 48
    ensures IsPm(TimeText(k)) <==> k >= 24
  {
    TimeTextChars(k);
    TimeTextStripped(k);
    if k < 24 {
      NoSubstringWithoutFirstChar(TimeText(k), "pm");
    } else {
      HasSubstringSuffix(Show(ClockHour(k)) + ":" + MinuteText(k), "pm");
    }
  }

  /** Reading the clock text of `k` gives back `k`. */
  lemma StartSlotOfTimeText(k: nat)
    requires k < 48
    ensures StartReadable(TimeText(k)) && '-' !in TimeText(k)
    ensures StartSlot(TimeText(k)) == k
  {
    TimeTextReadable(k);
    TimeTextPm(k);
    var r := StartSlot(TimeText(k));
    ClockHourWithinHalf(k);
    DecodeUnique(r, k);
  }

  /** The token "<clock text of a>-<clock text of b>". */
  function ClockToken(a: nat, b: nat): string
    requires a < 48 && b < 48
  {
    TimeText(a) + "-" + TimeText(b)
  }

  lemma ClockTokenSplit(a: nat, b: nat)
    requires a < 48 && b < 48
    ensures Split(ClockToken(a, b), '-') == [TimeText(a), TimeText(b)]
    ensures StartOf(ClockToken(a, b)) == TimeText(a)
  {
    TimeTextChars(a);
    TimeTextStripped(a);
    TimeTextChars(b);
    TimeTextStripped(b);
    SplitTwo(TimeText(a), TimeText(b), '-');
  }

  /** A token ending where the next one starts encodes its own start. */
  lemma ClockTokensAdjacent(a: nat, b: nat, c: nat)
    requires a < 48 && b < 48 && c < 48
    ensures Adjacent(ClockToken(a, b), ClockToken(b, c))
    ensures SlotDefined(ClockToken(a, b), ClockToken(b, c))
    ensures SlotId(ClockToken(a, b), ClockToken(b, c)) == a
  {
    ClockTokenSplit(a, b);
    ClockTokenSplit(b, c);
    StartSlotOfTimeText(a);
  }

  /** Round trip: two consecutive half-hour tokens encode the index of the
      first one. */
  lemma HalfHourRoundTrip(k: nat)
    requires k < 48
    ensures SlotDefined(HalfHourToken(k), HalfHourToken((k + 1) % 48))
    ensures SlotId(HalfHourToken(k), HalfHourToken((k + 1) % 48)) == k
  {
    var n := (k + 1) % 48;
    ClockTokensAdjacent(k, n, (n + 1) % 48);
  }

  /** Round trip for the teacher encoding: an hour token against its reverse
      encodes the index of its start. */
  lemma HourRoundTrip(k: nat)
    requires k < 48
    ensures |Split(HourToken(k), '-')| == 2
    ensures SlotDefined(HourToken(k), ReverseInterval(HourToken(k)))
    ensures SlotId(HourToken(k), ReverseInterval(HourToken(k))) == k
  {
    var e := (k + 2) % 48;
    ClockTokenSplit(k, e);
    assert ReverseInterval(HourToken(k)) == ClockToken(e, k);
    ClockTokensAdjacent(k, e, k);
  }

  /** The clock texts of the first afternoon hour. */
  lemma OnePmTexts()
    ensures ClockToken(26, 27) == "1:00pm-1:30pm"
    ensures ClockToken(27, 28) == "1:30pm-2:00pm"
  {
    OnePmText();
    assert TimeText(28) == "2:00pm" by {
      assert Show(2) == "2";
    }
  }

  lemma OnePmText()
    ensures TimeText(26) == "1:00pm" && TimeText(27) == "1:30pm"
  {
    assert Show(1) == "1";
  }

  /** Worked example: the half hour starting 1:00pm is slot 26. */
  lemma ExampleOnePm()
    ensures SlotDefined("1:00pm-1:30pm", "1:30pm-2:00pm")
    ensures SlotId("1:00pm-1:30pm", "1:30pm-2:00pm") == 26
  {
    OnePmTexts();
    ClockTokensAdjacent(26, 27, 28);
  }

  /** The clock texts of the first hour after midnight. */
  lemma MidnightTexts()
    ensures ClockToken(0, 1) == "12:00am-12:30am"
    ensures ClockToken(1, 2) == "12:30am-1:00am"
  {
    MidnightText();
    assert TimeText(2) == "1:00am" by {
      assert Show(1) == "1";
    }
  }

  lemma MidnightText()
    ensures TimeText(0) == "12:00am" && TimeText(1) == "12:30am"
  {
    assert Show(12) == "12";
  }

  /** Worked example: the half hour starting 12:00am is slot 0. */
  lemma ExampleMidnight()
    ensures SlotDefined("12:00am-12:30am", "12:30am-1:00am")
    ensures SlotId("12:00am-12:30am", "12:30am-1:00am") == 0
  {
    MidnightTexts();
    ClockTokensAdjacent(0, 1, 2);
  }
}
