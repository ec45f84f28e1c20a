/** `generateListOfTimeIntervalIDs`: five comma-separated weekday strings
    become one list of slot ids, weekday `i` offset by `48 * i`. Students
    give chains of adjacent half-hour intervals, teachers give hour-long
    intervals. The result is a list in emission order and may hold
    repeats. */
module WeekParser {
  import opened PyText
  import opened SlotCodec

  /** Number of half-hour slots in one day, the offset between weekdays. */
  const SlotsPerDay: nat := 48

  // ---------------------------------------------------------------------
  // Walks over the tokens of one weekday. They take the encoder as a
  // function value, so what is proved about them holds for any encoder.

  /** Every adjacent pair of tokens is in the domain of `f`. */
  ghost predicate PairsDefined(tokens: seq<string>, f: (string, string) --> int) {
    forall j :: 0 <= j < |tokens| - 1 ==> f.requires(tokens[j], tokens[j + 1])
  }

  /** `f` applied to every adjacent pair of tokens, in order. */
  function PairMap(tokens: seq<string>, f: (string, string) --> int): (r: seq<int>)
    requires PairsDefined(tokens, f)
    ensures |r| == if |tokens| == 0 then 0 else |tokens| - 1
    ensures forall j :: 0 <= j < |r| ==> r[j] == f(tokens[j], tokens[j + 1])
  {
    var n := if |tokens| == 0 then 0 else |tokens| - 1;
    seq(n, j requires 0 <= j < n => f(tokens[j], tokens[j + 1]))
  }

  /** Every non-empty token is in the domain of `f`. */
  ghost predicate TokensDefined(tokens: seq<string>, f: string --> int) {
    forall t :: t in tokens && t != "" ==> f.requires(t)
  }

  /** The non-empty tokens, in order. */
  function NonEmpty(tokens: seq<string>): (r: seq<string>)
    ensures forall t :: t in r <==> t in tokens && t != ""
    ensures forall k :: 0 <= k < |r| ==> r[k] in tokens && r[k] != ""
  {
    if |tokens| == 0 then []
    else NonEmpty(tokens[..|tokens| - 1]) + (if tokens[|tokens| - 1] == "" then [] else [tokens[|tokens| - 1]])
  }

  /** `f` applied to every non-empty token, in order. */
  function TokenMap(tokens: seq<string>, f: string --> int): (r: seq<int>)
    requires TokensDefined(tokens, f)
    ensures |r| == |NonEmpty(tokens)|
    ensures forall k :: 0 <= k < |r| ==> r[k] == f(NonEmpty(tokens)[k])
  {
    var ne := NonEmpty(tokens);
    seq(|ne|, k requires 0 <= k < |ne| => f(ne[k]))
  }

  /** The values other than the sentinel -1, in their order. */
  function DropRejected(xs: seq<int>): (r: seq<int>)
    ensures forall x :: x in r <==> x in xs && x != Rejected
    ensures |r| <= |xs|
  {
    if |xs| == 0 then []
    else DropRejected(xs[..|xs| - 1]) + (if xs[|xs| - 1] == Rejected then [] else [xs[|xs| - 1]])
  }

  /** Dropping the sentinel distributes over concatenation, so it keeps the
      order of what it keeps. */
  lemma {:induction false} DropRejectedAppend(xs: seq<int>, ys: seq<int>)
    ensures DropRejected(xs + ys) == DropRejected(xs) + DropRejected(ys)
    decreases |ys|
  {
    if |ys| == 0 {
      assert xs + ys == xs;
    } else {
      var ys' := ys[..|ys| - 1];
      assert (xs + ys)[..|xs + ys| - 1] == xs + ys';
      DropRejectedAppend(xs, ys');
    }
  }

  /** A sequence without the sentinel is kept whole. */
  lemma {:induction false} DropRejectedNone(xs: seq<int>)
    requires Rejected !in xs
    ensures DropRejected(xs) == xs
    decreases |xs|
  {
    if |xs| > 0 {
      DropRejectedNone(xs[..|xs| - 1]);
    }
  }

  /** Adds the weekday offset to every id. */
  function Shift(xs: seq<int>, offset: int): (r: seq<int>)
    ensures |r| == |xs|
    ensures forall k :: 0 <= k < |xs| ==> r[k] == xs[k] + offset
  {
    seq(|xs|, k requires 0 <= k < |xs| => xs[k] + offset)
  }

  /** The ids a pair walk emits: encoded pairs, sentinel dropped, shifted. */
  function PairDay(tokens: seq<string>, f: (string, string) --> int, offset: int): seq<int>
    requires PairsDefined(tokens, f)
  {
    Shift(DropRejected(PairMap(tokens, f)), offset)
  }

  /** An id comes out of a pair walk exactly when some adjacent pair encodes
      to a value other than the sentinel and the id is that value shifted. */
  lemma PairDayMembership(tokens: seq<string>, f: (string, string) --> int, offset: int, x: int)
    requires PairsDefined(tokens, f)
    ensures x in PairDay(tokens, f, offset) <==>
              exists j :: 0 <= j < |tokens| - 1 && f(tokens[j], tokens[j + 1]) != Rejected
                          && x == offset + f(tokens[j], tokens[j + 1])
  {
    if x in PairDay(tokens, f, offset) {
      PairDayFrom(tokens, f, offset, x);
    }
    PairDayAll(tokens, f, offset);
  }

  /** Every accepted pair contributes its shifted value to the walk. */
  lemma PairDayAll(tokens: seq<string>, f: (string, string) --> int, offset: int)
    requires PairsDefined(tokens, f)
    ensures forall j :: 0 <= j < |tokens| - 1 && f(tokens[j], tokens[j + 1]) != Rejected ==>
              offset + f(tokens[j], tokens[j + 1]) in PairDay(tokens, f, offset)
  {
    forall j | 0 <= j < |tokens| - 1 && f(tokens[j], tokens[j + 1]) != Rejected
      ensures offset + f(tokens[j], tokens[j + 1]) in PairDay(tokens, f, offset)
    {
      PairDayInto(tokens, f, offset, j, offset + f(tokens[j], tokens[j + 1]));
    }
  }

  /** Every id of a pair walk comes from some accepted pair. */
  lemma PairDayFrom(tokens: seq<string>, f: (string, string) --> int, offset: int, x: int)
    requires PairsDefined(tokens, f) && x in PairDay(tokens, f, offset)
    ensures exists j :: 0 <= j < |tokens| - 1 && f(tokens[j], tokens[j + 1]) != Rejected
                        && x == offset + f(tokens[j], tokens[j + 1])
  {
    var ps := PairMap(tokens, f);
    var d := DropRejected(ps);
    var ids := Shift(d, offset);
    var k :| 0 <= k < |d| && ids[k] == x;
    assert d[k] in ps;
    var j :| 0 <= j < |ps| && ps[j] == d[k];
    assert f(tokens[j], tokens[j + 1]) == d[k];
  }

  /** One accepted pair contributes its shifted value to the walk. */
  lemma PairDayInto(tokens: seq<string>, f: (string, string) --> int, offset: int, j: int, x: int)
    requires PairsDefined(tokens, f) && 0 <= j < |tokens| - 1
    requires f(tokens[j], tokens[j + 1]) != Rejected && x == offset + f(tokens[j], tokens[j + 1])
    ensures x in PairDay(tokens, f, offset)
  {
    var ps := PairMap(tokens, f);
    var d := DropRejected(ps);
    var ids := Shift(d, offset);
    var v := f(tokens[j], tokens[j + 1]);
    assert ps[j] == v;
    assert v in d;
    var k :| 0 <= k < |d| && d[k] == v;
    assert ids[k] == x;
  }

  /** One more pass of a pair walk: the pair ending at token `j + 1` adds
      its shifted value unless it is the sentinel. */
  lemma PairDayStep(tokens: seq<string>, f: (string, string) --> int, j: nat, offset: int)
    requires j + 1 < |tokens| && PairsDefined(tokens, f)
    ensures PairsDefined(tokens[..j + 1], f) && PairsDefined(tokens[..j + 2], f)
    ensures var s := f(tokens[j], tokens[j + 1]);
      PairDay(tokens[..j + 2], f, offset)
        == PairDay(tokens[..j + 1], f, offset) + (if s == Rejected then [] else [offset + s])
  {
    var p := PairMap(tokens[..j + 1], f);
    var s := f(tokens[j], tokens[j + 1]);
    assert tokens[..j + 2][..j + 1] == tokens[..j + 1];
    assert PairMap(tokens[..j + 2], f) == p + [s];
    ShiftDropSnoc(p, s, offset);
  }

  /** The step of the student loop: the ids so far, extended by the
      shifted value of the next pair unless it is the sentinel, are the ids
      of one more token. `PairDayStep` in the shape the loop needs, stated
      separately to keep the loop's proof cheap. */
  lemma PairDayPush(tokens: seq<string>, f: (string, string) --> int, j: nat, offset: int,
                    ids: seq<int>, s: int)
    requires j + 1 < |tokens| && PairsDefined(tokens, f)
    requires PairsDefined(tokens[..j + 1], f) && ids == PairDay(tokens[..j + 1], f, offset)
    requires s == f(tokens[j], tokens[j + 1])
    ensures PairsDefined(tokens[..j + 2], f)
    ensures (if s == Rejected then ids else ids + [offset + s]) == PairDay(tokens[..j + 2], f, offset)
  {
    PairDayStep(tokens, f, j, offset);
  }

  /** Appending one value to what is filtered and shifted appends its
      shifted value unless it is the sentinel. */
  lemma ShiftDropSnoc(xs: seq<int>, x: int, offset: int)
    ensures Shift(DropRejected(xs + [x]), offset)
              == Shift(DropRejected(xs), offset) + (if x == Rejected then [] else [offset + x])
  {
    assert (xs + [x])[..|xs|] == xs;
    var d := DropRejected(xs);
    if x != Rejected {
      assert DropRejected(xs + [x]) == d + [x];
      ShiftSnoc(d, x, offset);
    } else {
      assert DropRejected(xs + [x]) == d;
    }
  }

  /** The ids a token walk emits: encoded non-empty tokens, shifted. */
  function TokenDay(tokens: seq<string>, f: string --> int, offset: int): seq<int>
    requires TokensDefined(tokens, f)
  {
    Shift(TokenMap(tokens, f), offset)
  }

  /** One more pass of a token walk: a non-empty token adds its shifted
      value, an empty one adds nothing. */
  lemma TokenDayStep(tokens: seq<string>, f: string --> int, k: nat, offset: int)
    requires k < |tokens| && TokensDefined(tokens, f)
    ensures TokensDefined(tokens[..k], f) && TokensDefined(tokens[..k + 1], f)
    ensures tokens[k] != "" ==> f.requires(tokens[k])
    ensures tokens[k] == "" ==> TokenDay(tokens[..k + 1], f, offset) == TokenDay(tokens[..k], f, offset)
    ensures tokens[k] != "" ==>
              TokenDay(tokens[..k + 1], f, offset) == TokenDay(tokens[..k], f, offset) + [offset + f(tokens[k])]
  {
    var a := tokens[..k];
    var b := tokens[..k + 1];
    var t := tokens[k];
    assert forall u :: u in b ==> u in tokens;
    assert forall u :: u in a ==> u in tokens;
    assert t in tokens;
    assert b[..k] == a;
    var m := TokenMap(a, f);
    if t != "" {
      assert NonEmpty(b) == NonEmpty(a) + [t];
      assert TokenMap(b, f) == m + [f(t)];
      ShiftSnoc(m, f(t), offset);
    } else {
      assert NonEmpty(b) == NonEmpty(a);
    }
  }

  lemma ShiftSnoc(xs: seq<int>, x: int, offset: int)
    ensures Shift(xs + [x], offset) == Shift(xs, offset) + [x + offset]
  {
  }

  /** The loop's own view of `TokenDayStep` for a non-empty token: pushing
      its shifted value keeps the walk in step. Stated separately to keep
      the loop's proof cheap. */
  lemma TokenDayPush(tokens: seq<string>, f: string --> int, k: nat, offset: int, ids: seq<int>, id: int)
    requires k < |tokens| && TokensDefined(tokens, f) && tokens[k] != ""
    requires TokensDefined(tokens[..k], f) && ids == TokenDay(tokens[..k], f, offset)
    requires f.requires(tokens[k]) && id == offset + f(tokens[k])
    ensures TokensDefined(tokens[..k + 1], f)
    ensures ids + [id] == TokenDay(tokens[..k + 1], f, offset)
  {
    TokenDayStep(tokens, f, k, offset);
  }

  /** A token listed twice is encoded twice: the walk does not deduplicate. */
  lemma TokenDayRepeat(t: string, f: string --> int, offset: int)
    requires t != "" && f.requires(t)
    ensures TokensDefined([t, t], f)
    ensures TokenDay([t, t], f, offset) == [offset + f(t), offset + f(t)]
  {
    NonEmptyTwice(t);
    var m := TokenMap([t, t], f);
    assert |m| == 2 && m[0] == f(t) && m[1] == f(t);
    var r := TokenDay([t, t], f, offset);
    assert |r| == 2 && r[0] == offset + f(t) && r[1] == offset + f(t);
  }

  /** A non-empty token listed twice survives twice. */
  lemma NonEmptyTwice(t: string)
    requires t != ""
    ensures NonEmpty([t, t]) == [t, t]
  {
    assert [t, t][..1] == [t] && [t][..0] == [];
    assert NonEmpty([t]) == [t];
  }

  /** Two encoders that agree on every non-empty token give the same walk. */
  lemma TokenDayAgree(tokens: seq<string>, f: string --> int, g: string --> int, offset: int)
    requires TokensDefined(tokens, f) && TokensDefined(tokens, g)
    requires forall t :: t in tokens && t != "" ==> f(t) == g(t)
    ensures TokenDay(tokens, f, offset) == TokenDay(tokens, g, offset)
  {
    var ne := NonEmpty(tokens);
    forall k | 0 <= k < |ne|
      ensures f(ne[k]) == g(ne[k])
    {
      assert ne[k] in ne;
    }
  }

  // ---------------------------------------------------------------------
  // Student mode: adjacent pairs of a chain

  /** What the student loop needs to run without raising. */
  ghost predicate StudentDayDefined(tokens: seq<string>) {
    PairsDefined(tokens, SlotId)
  }

  /** One weekday in student mode: `get_slot_id` of every adjacent pair,
      the sentinel dropped, the weekday offset added. */
  function StudentDayIds(tokens: seq<string>, offset: int): seq<int>
    requires StudentDayDefined(tokens)
  {
    PairDay(tokens, SlotId, offset)
  }

  /** An id is emitted for a student day exactly when some adjacent pair is
      accepted and encodes it; the sentinel never leaks into the output. */
  lemma StudentDayMembership(tokens: seq<string>, offset: int, x: int)
    requires StudentDayDefined(tokens)
    ensures x in StudentDayIds(tokens, offset) <==>
              exists j :: 0 <= j < |tokens| - 1 && Adjacent(tokens[j], tokens[j + 1])
                          && x == offset + SlotId(tokens[j], tokens[j + 1])
  {
    PairDayMembership(tokens, SlotId, offset, x);
  }

  /** A day with fewer than two tokens (such as the empty string) has no
      adjacent pair and contributes nothing. */
  lemma StudentShortDay(tokens: seq<string>, offset: int)
    requires |tokens| < 2
    ensures StudentDayDefined(tokens)
    ensures StudentDayIds(tokens, offset) == []
  {
  }

  // ---------------------------------------------------------------------
  // Teacher mode: one hour-long token at a time

  /** What the teacher loop needs to run on one non-empty token without
      raising: a '-' (else `interval_components[1]` raises) and, when the
      token is accepted against its reverse, a readable start time. */
  predicate TeacherTokenDefined(t: string) {
    |Split(t, '-')| >= 2 && SlotDefined(t, ReverseInterval(t))
  }

  /** `get_slot_id(interval, reverse_interval)` for one teacher token. */
  function TeacherSlot(t: string): int
    requires TeacherTokenDefined(t)
  {
    SlotId(t, ReverseInterval(t))
  }

  ghost predicate TeacherDayDefined(tokens: seq<string>) {
    TokensDefined(tokens, TeacherSlot)
  }

  /** One weekday in teacher mode: every non-empty token appends
      `offset + get_slot_id(token, reversed token)`, unfiltered. */
  function TeacherDayIds(tokens: seq<string>, offset: int): seq<int>
    requires TeacherDayDefined(tokens)
  {
    TokenDay(tokens, TeacherSlot, offset)
  }

  /** A well-formed hour token: exactly one '-' and a readable start. */
  predicate HourTokenWellFormed(t: string) {
    |Split(t, '-')| == 2 && StartReadable(StartOf(t))
  }

  /** The slot of a well-formed hour token's start. */
  function TokenStartSlot(t: string): int
    requires HourTokenWellFormed(t)
  {
    StartSlot(StartOf(t))
  }

  /** On a well-formed hour token the teacher encoding is the slot of the
      token's own start: the token is always accepted against its reverse. */
  lemma TeacherSlotWellFormed(t: string)
    requires HourTokenWellFormed(t)
    ensures TeacherTokenDefined(t)
    ensures TeacherSlot(t) == TokenStartSlot(t)
  {
    ReverseIntervalAdjacent(t);
  }

  /** On the 12-hour clock a well-formed hour token lands in one day. */
  lemma TokenStartSlotInDay(t: string)
    requires HourTokenWellFormed(t) && Hour(StartOf(t)) <= 12
    ensures 0 <= TokenStartSlot(t) < SlotsPerDay
  {
  }

  /** When every non-empty token has exactly one '-', each contributes exactly
      one id, the offset plus the slot of the token's start, in order; empty
      tokens contribute nothing. */
  lemma TeacherDayWellFormed(tokens: seq<string>, offset: int)
    requires TokensDefined(tokens, TokenStartSlot)
    ensures TeacherDayDefined(tokens)
    ensures TeacherDayIds(tokens, offset) == TokenDay(tokens, TokenStartSlot, offset)
  {
    forall t | t in tokens && t != ""
      ensures TeacherTokenDefined(t) && TeacherSlot(t) == TokenStartSlot(t)
    {
      TeacherSlotWellFormed(t);
    }
    TokenDayAgree(tokens, TeacherSlot, TokenStartSlot, offset);
  }

  /** A non-empty token with two or more '-' leaks the sentinel: it appends
      `offset - 1`, which is -1 on Monday and the last slot of the previous
      weekday otherwise. */
  lemma TeacherExtraDash(t: string, offset: int)
    requires t != "" && |Split(t, '-')| >= 3
    ensures TeacherDayDefined([t])
    ensures TeacherDayIds([t], offset) == [offset - 1]
  {
    ReverseIntervalRejected(t);
    assert TeacherTokenDefined(t);
    assert TeacherDayDefined([t]);
    TokenDayStep([t], TeacherSlot, 0, offset);
    assert [t][..1] == [t];
    assert TokenDay([t][..0], TeacherSlot, offset) == [];
  }

  /** The same hour listed twice on one weekday gives its id twice: the
      list is not made unique. */
  lemma TeacherDayRepeats(t: string, offset: int)
    requires t != "" && TeacherTokenDefined(t)
    ensures TeacherDayDefined([t, t])
    ensures |TeacherDayIds([t, t], offset)| == 2
    ensures TeacherDayIds([t, t], offset)[0] == TeacherDayIds([t, t], offset)[1] == offset + TeacherSlot(t)
  {
    TokenDayRepeat(t, TeacherSlot, offset);
  }

  // ---------------------------------------------------------------------
  // The whole week

  ghost predicate DayDefined(tokens: seq<string>, isThirtyMinIntervals: bool) {
    if isThirtyMinIntervals then StudentDayDefined(tokens) else TeacherDayDefined(tokens)
  }

  function DayIds(tokens: seq<string>, offset: int, isThirtyMinIntervals: bool): seq<int>
    requires DayDefined(tokens, isThirtyMinIntervals)
  {
    if isThirtyMinIntervals then StudentDayIds(tokens, offset) else TeacherDayIds(tokens, offset)
  }

  /** The lists of a week, one per weekday, joined in weekday order. */
  function Concat(parts: seq<seq<int>>): (r: seq<int>)
    ensures forall x :: x in r <==> exists d :: 0 <= d < |parts| && x in parts[d]
  {
    if |parts| == 0 then []
    else
      var init := parts[..|parts| - 1];
      var r := Concat(init) + parts[|parts| - 1];
      assert forall d :: 0 <= d < |init| ==> parts[d] == init[d];
      r
  }

  /** Joining one more weekday's list appends it. */
  lemma ConcatStep(parts: seq<seq<int>>, i: nat, ids: seq<int>, dayIds: seq<int>)
    requires i < |parts| && ids == Concat(parts[..i]) && dayIds == parts[i]
    ensures ids + dayIds == Concat(parts[..i + 1])
  {
    assert parts[..i + 1][..i] == parts[..i];
  }

  /** The ids of every weekday, weekday `d` offset by `48 * d`. */
  function WeekDayIds(lists: seq<seq<string>>, isThirtyMinIntervals: bool): (r: seq<seq<int>>)
    requires forall d :: 0 <= d < |lists| ==> DayDefined(lists[d], isThirtyMinIntervals)
    ensures |r| == |lists|
    ensures forall d :: 0 <= d < |lists| ==> r[d] == DayIds(lists[d], d * SlotsPerDay, isThirtyMinIntervals)
  {
    seq(|lists|, d requires 0 <= d < |lists| => DayIds(lists[d], d * SlotsPerDay, isThirtyMinIntervals))
  }

  /** Each weekday string split on ','. */
  function SplitDays(days: seq<string>): (r: seq<seq<string>>)
    ensures |r| == |days|
    ensures forall d :: 0 <= d < |days| ==> r[d] == Split(days[d], ',')
  {
    if |days| == 0 then []
    else SplitDays(days[..|days| - 1]) + [Split(days[|days| - 1], ',')]
  }

  ghost predicate WeekDefined(days: seq<string>, isThirtyMinIntervals: bool) {
    forall d :: 0 <= d < |days| ==> DayDefined(Split(days[d], ','), isThirtyMinIntervals)
  }

  /** The list `generateListOfTimeIntervalIDs` returns for the given weekday
      strings. */
  function WeekIds(days: seq<string>, isThirtyMinIntervals: bool): seq<int>
    requires WeekDefined(days, isThirtyMinIntervals)
  {
    Concat(WeekDayIds(SplitDays(days), isThirtyMinIntervals))
  }

  /** The student loop over one weekday's tokens, for any pair encoder:
      encode each token with the next one and keep what is not the sentinel,
      shifted by the weekday offset. */
  method PairWalk(tokens: seq<string>, f: (string, string) --> int, offset: int) returns (ids: seq<int>)
    requires |tokens| >= 1 && PairsDefined(tokens, f)
    ensures ids == PairDay(tokens, f, offset)
  {
    ids := [];
    var j := 0;
    while j < |tokens| - 1
      invariant 0 <= j < |tokens|
      invariant PairsDefined(tokens[..j + 1], f)
      invariant ids == PairDay(tokens[..j + 1], f, offset)
    {
      var slotId := f(tokens[j], tokens[j + 1]);
      PairDayPush(tokens, f, j, offset, ids, slotId);
      if slotId != Rejected {
        ids := ids + [offset + slotId];
      }
      j := j + 1;
    }
    assert tokens[..j + 1] == tokens;
  }

  /** The student loop with `get_slot_id` as the encoder. */
  method StudentDay(tokens: seq<string>, offset: int) returns (ids: seq<int>)
    requires |tokens| >= 1 && StudentDayDefined(tokens)
    ensures ids == StudentDayIds(tokens, offset)
  {
    ids := PairWalk(tokens, SlotId, offset);
  }

  /** The body of the teacher loop for one non-empty token. */
  method TeacherTokenId(interval: string, offset: int) returns (id: int)
    requires TeacherTokenDefined(interval)
    ensures id == offset + TeacherSlot(interval)
    ensures HourTokenWellFormed(interval) ==> id == offset + TokenStartSlot(interval)
    ensures |Split(interval, '-')| >= 3 ==> id == offset - 1
  {
    var intervalComponents := Split(interval, '-');
    var reverseInterval := intervalComponents[1] + "-" + intervalComponents[0];
    id := offset + SlotId(interval, reverseInterval);
    if HourTokenWellFormed(interval) {
      TeacherSlotWellFormed(interval);
    }
    if |intervalComponents| >= 3 {
      ReverseIntervalRejected(interval);
    }
  }

  /** The teacher loop over one weekday's tokens. */
  method TeacherDay(tokens: seq<string>, offset: int) returns (ids: seq<int>)
    requires TeacherDayDefined(tokens)
    ensures ids == TeacherDayIds(tokens, offset)
  {
    ids := [];
    for k := 0 to |tokens|
      invariant TokensDefined(tokens[..k], TeacherSlot)
      invariant ids == TokenDay(tokens[..k], TeacherSlot, offset)
    {
      var interval := tokens[k];
      TokenDayStep(tokens, TeacherSlot, k, offset);
      if interval != "" {
        var id := TeacherTokenId(interval, offset);
        TokenDayPush(tokens, TeacherSlot, k, offset, ids, id);
        ids := ids + [id];
      }
    }
    assert tokens[..|tokens|] == tokens;
  }

  /** The body of the weekday loop: the student or the teacher loop. */
  method DayWalk(tokens: seq<string>, offset: int, isThirtyMinIntervals: bool) returns (ids: seq<int>)
    requires |tokens| >= 1 && DayDefined(tokens, isThirtyMinIntervals)
    ensures ids == DayIds(tokens, offset, isThirtyMinIntervals)
  {
    if isThirtyMinIntervals {
      ids := StudentDay(tokens, offset);
    } else {
      ids := TeacherDay(tokens, offset);
    }
  }

  /** `generateListOfTimeIntervalIDs(monday, ..., friday, is_thirty_min_intervals)`,
      written as loops over the weekdays and their tokens. */
  method GenerateListOfTimeIntervalIds(monday: string, tuesday: string, wednesday: string,
                                       thursday: string, friday: string,
                                       isThirtyMinIntervals: bool)
    returns (ids: seq<int>)
    requires WeekDefined([monday, tuesday, wednesday, thursday, friday], isThirtyMinIntervals)
    ensures ids == WeekIds([monday, tuesday, wednesday, thursday, friday], isThirtyMinIntervals)
  {
    var days := [monday, tuesday, wednesday, thursday, friday];
    var intervalLists := [Split(monday, ','), Split(tuesday, ','), Split(wednesday, ','),
                          Split(thursday, ','), Split(friday, ',')];
    assert intervalLists == SplitDays(days);
    ghost var parts := WeekDayIds(intervalLists, isThirtyMinIntervals);
    ids := [];
    for i := 0 to |intervalLists|
      invariant ids == Concat(parts[..i])
    {
      var dayIds := DayWalk(intervalLists[i], i * SlotsPerDay, isThirtyMinIntervals);
      ConcatStep(parts, i, ids, dayIds);
      ids := ids + dayIds;
    }
    assert parts[..|intervalLists|] == parts;
  }

  // ---------------------------------------------------------------------
  // Bounds and order

  /** Every accepted pair (student) or non-empty token (teacher) starts at
      an hour of the 12-hour clock; teacher tokens also have exactly one '-'. */
  predicate DayOnClock(tokens: seq<string>, isThirtyMinIntervals: bool) {
    if isThirtyMinIntervals then
      forall j :: 0 <= j < |tokens| - 1 && Adjacent(tokens[j], tokens[j + 1]) ==>
        StartReadable(StartOf(tokens[j])) && Hour(StartOf(tokens[j])) <= 12
    else
      forall t :: t in tokens && t != "" ==> HourTokenWellFormed(t) && Hour(StartOf(t)) <= 12
  }

  /** Every id of `xs` lies in block `b`, the slots of weekday `b`. */
  predicate InBlock(xs: seq<int>, b: nat) {
    forall x :: x in xs ==> b * SlotsPerDay <= x < (b + 1) * SlotsPerDay
  }

  /** On the 12-hour clock, with one '-' per teacher token, a weekday's ids
      stay inside its block of 48. */
  lemma DayIdsInBlock(tokens: seq<string>, d: nat, isThirtyMinIntervals: bool)
    requires DayDefined(tokens, isThirtyMinIntervals) && DayOnClock(tokens, isThirtyMinIntervals)
    ensures InBlock(DayIds(tokens, d * SlotsPerDay, isThirtyMinIntervals), d)
  {
    if isThirtyMinIntervals {
      StudentDayInBlock(tokens, d);
    } else {
      TeacherDayInBlock(tokens, d);
    }
  }

  lemma StudentDayInBlock(tokens: seq<string>, d: nat)
    requires StudentDayDefined(tokens) && DayOnClock(tokens, true)
    ensures InBlock(StudentDayIds(tokens, d * SlotsPerDay), d)
  {
    forall j | 0 <= j < |tokens| - 1 && SlotId(tokens[j], tokens[j + 1]) != Rejected
      ensures 0 <= SlotId(tokens[j], tokens[j + 1]) < SlotsPerDay
    {
      SlotIdInDay(tokens[j], tokens[j + 1]);
    }
    PairDayInBlock(tokens, SlotId, d);
  }

  /** A pair walk whose accepted values all lie in [0, 48) stays in block `d`
      when shifted by `48 * d`. */
  lemma PairDayInBlock(tokens: seq<string>, f: (string, string) --> int, d: nat)
    requires PairsDefined(tokens, f)
    requires forall j :: 0 <= j < |tokens| - 1 && f(tokens[j], tokens[j + 1]) != Rejected ==>
               0 <= f(tokens[j], tokens[j + 1]) < SlotsPerDay
    ensures InBlock(PairDay(tokens, f, d * SlotsPerDay), d)
  {
    var offset := d * SlotsPerDay;
    forall x | x in PairDay(tokens, f, offset)
      ensures offset <= x < offset + SlotsPerDay
    {
      PairDayMembership(tokens, f, offset, x);
    }
  }

  lemma TeacherDayInBlock(tokens: seq<string>, d: nat)
    requires TeacherDayDefined(tokens) && DayOnClock(tokens, false)
    ensures InBlock(TeacherDayIds(tokens, d * SlotsPerDay), d)
  {
    var offset := d * SlotsPerDay;
    TeacherDayWellFormed(tokens, offset);
    var ne := NonEmpty(tokens);
    var s := TokenDay(tokens, TokenStartSlot, offset);
    forall x | x in s
      ensures offset <= x < offset + SlotsPerDay
    {
      var k :| 0 <= k < |s| && s[k] == x;
      TokenStartSlotInDay(ne[k]);
    }
  }

  /** Every id lies below block `n`. */
  predicate BelowBlock(ids: seq<int>, n: nat) {
    forall p :: 0 <= p < |ids| ==> 0 <= ids[p] < n * SlotsPerDay
  }

  /** Ids come block by block: an id of a later weekday is never emitted
      before one of an earlier weekday. */
  predicate BlockOrdered(ids: seq<int>) {
    forall p, q :: 0 <= p < q < |ids| ==> ids[p] / SlotsPerDay <= ids[q] / SlotsPerDay
  }

  /** When weekday `d`'s ids lie in block `d` for every `d`, the joined
      week lies in [0, 48 * |parts|) and comes weekday by weekday. */
  lemma {:induction false} ConcatOrdered(parts: seq<seq<int>>)
    requires forall d :: 0 <= d < |parts| ==> InBlock(parts[d], d)
    ensures BelowBlock(Concat(parts), |parts|) && BlockOrdered(Concat(parts))
  {
    if |parts| > 0 {
      var n := |parts|;
      var init := parts[..n - 1];
      assert forall d :: 0 <= d < |init| ==> init[d] == parts[d];
      ConcatOrdered(init);
      AppendBlock(Concat(init), parts[n - 1], n - 1);
      assert Concat(parts) == Concat(init) + parts[n - 1];
    }
  }

  /** Ids of the earlier blocks, in block order, followed by ids of block
      `b` are again in block order and below block `b + 1`. */
  lemma AppendBlock(prev: seq<int>, day: seq<int>, b: nat)
    requires BelowBlock(prev, b) && BlockOrdered(prev) && InBlock(day, b)
    ensures BelowBlock(prev + day, b + 1) && BlockOrdered(prev + day)
  {
    var ids := prev + day;
    forall p | 0 <= p < |prev|
      ensures ids[p] == prev[p] && ids[p] / SlotsPerDay < b
    {
      BlockBelow(prev[p], b);
    }
    forall p | |prev| <= p < |ids|
      ensures ids[p] == day[p - |prev|] && b * SlotsPerDay <= ids[p] < (b + 1) * SlotsPerDay
      ensures ids[p] / SlotsPerDay == b
    {
      assert day[p - |prev|] in day;
      BlockOf(ids[p], b);
    }
  }

  lemma BlockOf(x: int, b: nat)
    requires b * SlotsPerDay <= x < (b + 1) * SlotsPerDay
    ensures x / SlotsPerDay == b
  {
  }

  lemma BlockBelow(x: int, b: nat)
    requires 0 <= x < b * SlotsPerDay
    ensures x / SlotsPerDay < b
  {
  }

  /** With five weekdays on the 12-hour clock (one '-' per teacher token)
      every id is in [0, 240),
      and the ids come weekday by weekday. */
  lemma WeekIdsInRange(days: seq<string>, isThirtyMinIntervals: bool)
    requires |days| == 5
    requires WeekDefined(days, isThirtyMinIntervals)
    requires forall d :: 0 <= d < 5 ==> DayOnClock(Split(days[d], ','), isThirtyMinIntervals)
    ensures forall x :: x in WeekIds(days, isThirtyMinIntervals) ==> 0 <= x < 240
    ensures BlockOrdered(WeekIds(days, isThirtyMinIntervals))
  {
    var lists := SplitDays(days);
    var parts := WeekDayIds(lists, isThirtyMinIntervals);
    forall d | 0 <= d < 5
      ensures InBlock(parts[d], d)
    {
      DayIdsInBlock(lists[d], d, isThirtyMinIntervals);
    }
    ConcatOrdered(parts);
    var ids := WeekIds(days, isThirtyMinIntervals);
    assert ids == Concat(parts);
    forall x | x in ids
      ensures 0 <= x < 240
    {
      var p :| 0 <= p < |ids| && ids[p] == x;
    }
  }
}
