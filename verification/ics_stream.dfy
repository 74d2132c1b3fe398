/**
 The streaming side of the ICS parser (ICSStreamParser): FeedData appends chunks
 of the calendar body to a 16 KiB buffer, ProcessBuffer cuts every complete
 `BEGIN:VEVENT` ... `END:VEVENT` block out of it and handles the event, and
 Finish flushes what is left.

 The parser's state is a value: the buffer (a C string), the calendar colour and
 window it was given, its two counters, the RECURRENCE-ID dates it has recorded
 and the events it has handed to its callback, in order. A run either goes on
 with a new state or stops: the BYDAY loop of ParseRRule spins, the expansion
 ran out of its fuel bound, or the C code reads past a month table.
 */
module IcsStream {
  import opened Wrappers
  import opened Machine
  import opened Text
  import Timestamp
  import Scan
  import opened Events
  import IcsRRule
  import opened IcsProps
  import IcsExpand

  /** Size of the accumulation buffer; it holds at most BUFFER_SIZE - 1 characters and a NUL. */
  const BUFFER_SIZE: nat := 16384
  /** Characters kept when the buffer holds no event start, in case "BEGIN:VEVENT" is split between chunks. */
  const KEEP_TAIL: nat := 20
  const MAX_RECURRENCE_IDS: nat := 64
  const MAX_EXDATES: nat := 64
  /** Sizes of the RECURRENCE-ID and RRULE value buffers. */
  const RECURRENCE_ID_SIZE: nat := 64
  const RRULE_SIZE: nat := 256

  const BEGIN_EVENT: string := "BEGIN:VEVENT"
  const END_EVENT: string := "END:VEVENT"
  const EXDATE: string := "EXDATE"

  // ---------------------------------------------------------------------------
  // Data model
  // ---------------------------------------------------------------------------

  datatype Parser = Parser(
    buffer: string,
    calendarColor: string,
    windowStart: u32,
    windowEnd: u32,
    eventCount: int,
    skippedCount: int,
    recurrenceIds: seq<u32>,
    emitted: seq<CalendarEvent>)

  /** Why a run stops. */
  datatype Halt = RRuleHangs | OutOfFuel | UndefinedBehaviour

  datatype Run = Running(parser: Parser) | Halted(why: Halt)

  /** The bounds the C arrays put on the state. */
  predicate Valid(p: Parser) {
    |p.buffer| < BUFFER_SIZE && |p.recurrenceIds| <= MAX_RECURRENCE_IDS && |p.calendarColor| < CALENDAR_COLOR_SIZE
  }

  /** A fresh parser after SetCalendarColor and SetTimeWindow. */
  function NewParser(color: string, windowStart: u32, windowEnd: u32): (p: Parser)
    ensures Valid(p) && p.buffer == [] && p.emitted == [] && p.recurrenceIds == []
    ensures p.eventCount == 0 && p.skippedCount == 0
    ensures p.calendarColor <= color && p.windowStart == windowStart && p.windowEnd == windowEnd
  {
    Parser([], CalendarColorSetting(color), windowStart, windowEnd, 0, 0, [], [])
  }

  /** The callback receives the events in order and the event counter counts them. */
  function Emit(p: Parser, events: seq<CalendarEvent>): (q: Parser)
    ensures q.emitted == p.emitted + events && q.eventCount == p.eventCount + |events|
    ensures q.buffer == p.buffer && q.recurrenceIds == p.recurrenceIds && q.skippedCount == p.skippedCount
  {
    p.(eventCount := p.eventCount + |events|, emitted := p.emitted + events)
  }

  /**
   What handling events never undoes: the callback's events and the recorded
   dates only grow, each emitted event is counted, the skip counter does not
   fall, and the settings stay.
   */
  predicate Grows(p: Parser, q: Parser) {
    && p.emitted <= q.emitted
    && q.eventCount - |q.emitted| == p.eventCount - |p.emitted|
    && p.skippedCount <= q.skippedCount
    && p.recurrenceIds <= q.recurrenceIds
    && q.calendarColor == p.calendarColor && q.windowStart == p.windowStart && q.windowEnd == p.windowEnd
  }

  // ---------------------------------------------------------------------------
  // Exception dates
  // ---------------------------------------------------------------------------

  /** The date of a RECURRENCE-ID value, read with `%4d%2d%2d` after its first ':' (or from its start). */
  function RecurrenceDate(v: string): (r: Option<(int, int, int)>)
  {
    var dp := match FindChar(v, ':', 0) case Some(c) => c + 1 case None => 0;
    Scan.ScanDate(v, dp)
  }

  /**
   Records a RECURRENCE-ID date while fewer than 64 are recorded. None: the month
   is 14 or more and DateToTimestampHelper reads past its month table.
   */
  function RecordRecurrenceId(ids: seq<u32>, v: string): (r: Option<seq<u32>>)
    requires |ids| <= MAX_RECURRENCE_IDS
    ensures r.Some? ==> ids <= r.value && |r.value| <= MAX_RECURRENCE_IDS
    ensures r.Some? && |r.value| > |ids| ==> RecurrenceDate(v).Some? && |r.value| == |ids| + 1
    ensures r.None? <==> RecurrenceDate(v).Some? && |ids| < MAX_RECURRENCE_IDS && RecurrenceDate(v).value.1 >= 14
  {
    match RecurrenceDate(v)
    case None => Some(ids)
    case Some((y, m, d)) =>
      if |ids| >= MAX_RECURRENCE_IDS then Some(ids)
      else if m >= 14 then None
      else Some(ids + [Timestamp.DateToTimestampHelper(y, m, d)])
  }

  /** The first position at or after q, and before eol, holding ',', CR or LF; or eol. */
  function DateEnd(s: string, q: nat, eol: nat): (r: nat)
    requires q <= |s| && eol <= |s|
    ensures q <= r <= |s|
    ensures forall k | q <= k < r :: k < eol && s[k] != ',' && s[k] != '\r' && s[k] != '\n'
    ensures r < eol ==> s[r] == ',' || s[r] == '\r' || s[r] == '\n'
    decreases |s| - q
  {
    if q < eol && s[q] != ',' && s[q] != '\r' && s[q] != '\n' then
      var r := DateEnd(s, q + 1, eol);
      assert forall k | q < k < r :: k < eol && s[k] != ',' && s[k] != '\r' && s[k] != '\n';
      r
    else q
  }

  /**
   The comma-separated dates of one EXDATE value, [dp, eol): each is read with
   `%4d%2d%2d` (which may read on past eol) and appended while fewer than 64
   dates are held; the scan then skips to the next comma. None: a month of 14
   or more.
   */
  function DateList(s: string, dp: nat, eol: nat, acc: seq<u32>): (r: Option<seq<u32>>)
    requires dp <= |s| && eol <= |s|
    requires forall k | dp <= k < eol :: s[k] != '\r' && s[k] != '\n'
    ensures r.Some? ==> acc <= r.value && |r.value| <= if |acc| < MAX_EXDATES then MAX_EXDATES else |acc|
    decreases |s| - dp
  {
    if dp >= eol || |acc| >= MAX_EXDATES then Some(acc)
    else
      var date := Scan.ScanDate(s, dp);
      if date.Some? && date.value.1 >= 14 then None
      else
        var acc' := if date.Some? then acc + [Timestamp.DateToTimestampHelper(date.value.0, date.value.1, date.value.2)] else acc;
        var q := DateEnd(s, dp, eol);
        var next := if At(s, q) == ',' then q + 1 else q;
        DateList(s, next, eol, acc')
  }

  /**
   The EXDATE scan of the block [pos, end): each "EXDATE" found before the end
   whose ':' is also inside the block contributes the dates of the rest of its
   line; one without such a colon is stepped over.
   */
  function ExdateLines(s: string, pos: nat, end: nat, acc: seq<u32>): (r: Option<seq<u32>>)
    requires end <= |s|
    ensures r.Some? ==> acc <= r.value && |r.value| <= if |acc| < MAX_EXDATES then MAX_EXDATES else |acc|
    decreases |s| - pos
  {
    if pos >= end || |acc| >= MAX_EXDATES then Some(acc)
    else
      match Find(s, EXDATE, pos)
      case None => Some(acc)
      case Some(x) =>
        if x >= end then Some(acc)
        else
          match FindChar(s, ':', x)
          case None => ExdateLines(s, x + 6, end, acc)
          case Some(c) =>
            if c >= end then ExdateLines(s, x + 6, end, acc)
            else
              var eol := IcsProps.LineEnd(s, c, end);
              match DateList(s, c + 1, eol, acc)
              case None => None
              case Some(acc') => ExdateLines(s, eol, end, acc')
  }

  /** The exclusion list of a recurring event: the recorded RECURRENCE-ID dates, then its EXDATE dates, 64 at most. */
  function Exclusions(s: string, start: nat, end: nat, ids: seq<u32>): (r: Option<seq<u32>>)
    requires end <= |s| && |ids| <= MAX_RECURRENCE_IDS
    ensures r.Some? ==> ids <= r.value && |r.value| <= MAX_EXDATES
  {
    ExdateLines(s, start, end, ids)
  }

  // ---------------------------------------------------------------------------
  // One event block
  // ---------------------------------------------------------------------------

  /** The event counter and callback take the event if it is in the window. */
  function EmitIfInWindow(p: Parser, ev: CalendarEvent): (q: Parser)
    ensures q.emitted == (if InWindow(p.windowStart, p.windowEnd, ev.startTime, ev.allDay) then p.emitted + [ev] else p.emitted)
    ensures q.eventCount - |q.emitted| == p.eventCount - |p.emitted|
    ensures q.buffer == p.buffer && q.recurrenceIds == p.recurrenceIds && q.skippedCount == p.skippedCount
  {
    if InWindow(p.windowStart, p.windowEnd, ev.startTime, ev.allDay) then Emit(p, [ev]) else p
  }

  /** An override (an event with a RECURRENCE-ID): its date is recorded, and it is emitted if in the window. */
  function Override(p: Parser, ev: CalendarEvent, rid: string): (r: Run)
    requires Valid(p)
    ensures r.Running? <==> RecordRecurrenceId(p.recurrenceIds, rid).Some?
    ensures r.Running? ==> Valid(r.parser) && Grows(p, r.parser) && r.parser.buffer == p.buffer
    ensures r.Running? ==>
      && r.parser.skippedCount == p.skippedCount
      && r.parser.recurrenceIds == RecordRecurrenceId(p.recurrenceIds, rid).value
      && (r.parser.emitted == p.emitted + [ev] <==> InWindow(p.windowStart, p.windowEnd, ev.startTime, ev.allDay))
      && (r.parser.emitted == p.emitted <==> !InWindow(p.windowStart, p.windowEnd, ev.startTime, ev.allDay))
  {
    match RecordRecurrenceId(p.recurrenceIds, rid)
    case None => Halted(UndefinedBehaviour)
    case Some(ids) => Running(EmitIfInWindow(p.(recurrenceIds := ids), ev))
  }

  /** An event without a recurrence: emitted if in the window, otherwise counted as skipped. */
  function Plain(p: Parser, ev: CalendarEvent): (q: Parser)
    requires Valid(p)
    ensures Valid(q) && Grows(p, q) && q.buffer == p.buffer && q.recurrenceIds == p.recurrenceIds
    ensures q.eventCount + q.skippedCount == p.eventCount + p.skippedCount + 1
    ensures q.emitted == p.emitted + [ev] <==> InWindow(p.windowStart, p.windowEnd, ev.startTime, ev.allDay)
    ensures q.skippedCount == p.skippedCount + 1 <==> !InWindow(p.windowStart, p.windowEnd, ev.startTime, ev.allDay)
  {
    if InWindow(p.windowStart, p.windowEnd, ev.startTime, ev.allDay) then Emit(p, [ev])
    else p.(skippedCount := p.skippedCount + 1)
  }

  /**
   A recurring event: its exclusion list is built from the block [start, end) and
   the recorded dates, and every instance the expansion emits goes to the callback.
   */
  function Recurring(p: Parser, ev: CalendarEvent, rule: IcsRRule.RRule, start: nat, end: nat, fuel: nat): (r: Run)
    requires Valid(p) && IcsRRule.Wf(rule) && end <= |p.buffer|
    ensures r.Running? ==> Valid(r.parser) && Grows(p, r.parser) && r.parser.buffer == p.buffer
    ensures r.Running? ==> r.parser.skippedCount == p.skippedCount && r.parser.recurrenceIds == p.recurrenceIds
  {
    match Exclusions(p.buffer, start, end, p.recurrenceIds)
    case None => Halted(UndefinedBehaviour)
    case Some(ex) =>
      match IcsExpand.ExpandRecurringEvent(ev, rule, ex, p.windowStart, p.windowEnd, fuel)
      case Expanded(_, events) => Running(Emit(p, events))
      case MonthOutOfRange => Halted(UndefinedBehaviour)
      case Unfinished => Halted(OutOfFuel)
  }

  /** The block's RRULE read by ParseRRule; a block without one reads as the default rule, which names no frequency. */
  function RuleOf(s: string, start: nat, end: nat): (r: IcsRRule.Outcome)
    requires start <= end <= |s|
    ensures r.Parsed? ==> IcsRRule.Wf(r.rule)
    ensures FindProperty(s, start, end, "RRULE", RRULE_SIZE).None? ==> r.Parsed? && r.rule.freq == IcsRRule.NoFreq
  {
    var rr := FindProperty(s, start, end, "RRULE", RRULE_SIZE);
    if rr.Some? then IcsRRule.ParseRRule(rr.value) else IcsRRule.Parsed(IcsRRule.DefaultRule)
  }

  /**
   The body of ProcessBuffer for the block [start, end) of the buffer: a block
   without SUMMARY or DTSTART is dropped; otherwise an override, a recurring event
   (its RRULE parses to a frequency) or a plain event is handled.
   */
  function HandleEvent(p: Parser, start: nat, end: nat, fuel: nat): (r: Run)
    requires Valid(p) && start <= end <= |p.buffer|
    ensures r.Running? ==> Grows(p, r.parser) && r.parser.buffer == p.buffer && Valid(r.parser)
  {
    var s := p.buffer;
    match ParseEvent(s, start, end, p.calendarColor)
    case NoEvent => Running(p)
    case EventMonthPastTable => Halted(UndefinedBehaviour)
    case Event(ev) =>
      var rid := FindProperty(s, start, end, "RECURRENCE-ID", RECURRENCE_ID_SIZE);
      if rid.Some? then Override(p, ev, rid.value)
      else
        match RuleOf(s, start, end)
        case Hangs(_) => Halted(RRuleHangs)
        case OutOfBounds(_) => Halted(UndefinedBehaviour)
        case Parsed(rule) =>
          if rule.freq != IcsRRule.NoFreq then Recurring(p, ev, rule, start, end, fuel)
          else Running(Plain(p, ev))
  }

  // ---------------------------------------------------------------------------
  // The buffer
  // ---------------------------------------------------------------------------

  /** No occurrence of pat anywhere in b. */
  predicate Absent(b: string, pat: string) {
    forall i | 0 <= i <= |b| :: !HasAt(b, i, pat)
  }

  /** The buffer holds an event start and, after it, an event end. */
  predicate CompleteEvent(b: string) {
    Find(b, BEGIN_EVENT, 0).Some? && Find(b, END_EVENT, Find(b, BEGIN_EVENT, 0).value).Some?
  }

  /**
   What ProcessBuffer leaves: no event start and at most 20 characters, or an
   event start at the front with no event end after it. Either way the buffer
   holds no complete event.
   */
  predicate Settled(b: string) {
    (Absent(b, BEGIN_EVENT) && |b| <= KEEP_TAIL) || (HasAt(b, 0, BEGIN_EVENT) && Absent(b, END_EVENT))
  }

  /**
   ProcessBuffer: handles complete events from the front of the buffer and removes
   each (through the end of its "END:VEVENT") until none is left; then keeps only
   the last 20 characters if there is no event start, or drops what precedes an
   unfinished event.
   */
  function ProcessBuffer(p: Parser, fuel: nat): (r: Run)
    requires Valid(p)
    ensures r.Running? ==> Valid(r.parser) && Grows(p, r.parser)
    ensures r.Running? ==> Settled(r.parser.buffer) && |r.parser.buffer| <= |p.buffer|
    ensures r.Running? && CompleteEvent(p.buffer) ==> |r.parser.buffer| < |p.buffer|
    decreases |p.buffer|
  {
    var s := p.buffer;
    match Find(s, BEGIN_EVENT, 0)
    case None =>
      NoStartLeavesTail(s);
      Running(p.(buffer := if |s| > KEEP_TAIL then s[|s| - KEEP_TAIL..] else s))
    case Some(start) =>
      match Find(s, END_EVENT, start)
      case None =>
        UnfinishedEventSettles(s, start);
        Running(p.(buffer := s[start..]))
      case Some(end) =>
        match HandleEvent(p, start, end, fuel)
        case Halted(why) => Halted(why)
        case Running(q) => ProcessBuffer(q.(buffer := s[end + |END_EVENT|..]), fuel)
  }

  /** Finish: one last ProcessBuffer over whatever the feed left. */
  function Finish(p: Parser, fuel: nat): (r: Run)
    requires Valid(p)
    ensures r.Running? ==> Valid(r.parser) && Grows(p, r.parser) && Settled(r.parser.buffer)
  {
    ProcessBuffer(p, fuel)
  }

  /** What FeedData does when the buffer stays full: drop through the first event end, or everything. */
  function DropOversized(b: string): (r: string)
    ensures |r| < |b| || b == []
  {
    match Find(b, END_EVENT, 0)
    case Some(e) => b[e + |END_EVENT|..]
    case None => []
  }

  /**
   FeedData: copies as much of the chunk as fits, processes the buffer, and, if
   the buffer is still full with data left over, drops the oversized event; then
   goes on with the rest of the chunk.
   */
  function FeedData(p: Parser, data: string, fuel: nat): (r: Run)
    requires Valid(p)
    ensures r.Running? ==> Valid(r.parser) && Grows(p, r.parser)
    ensures r.Running? && data != [] ==> Settled(r.parser.buffer)
    ensures r.Running? && data == [] ==> r.parser == p
    decreases |data|, |p.buffer|
  {
    if data == [] then Running(p)
    else
      var space := BUFFER_SIZE - |p.buffer| - 1;
      var n := if |data| < space then |data| else space;
      match ProcessBuffer(p.(buffer := p.buffer + data[..n]), fuel)
      case Halted(why) => Halted(why)
      case Running(q) =>
        var rest := data[n..];
        if |q.buffer| >= BUFFER_SIZE - 1 && rest != [] then
          FeedData(q.(buffer := DropOversized(q.buffer)), rest, fuel)
        else
          FeedData(q, rest, fuel)
  }

  // ---------------------------------------------------------------------------
  // Lemmas
  // ---------------------------------------------------------------------------

  /** pat occurs in s[k..] at i exactly when it occurs in s at k + i. */
  lemma {:induction false} HasAtShift(s: string, k: nat, i: nat, pat: string)
    requires k <= |s|
    ensures HasAt(s[k..], i, pat) <==> HasAt(s, k + i, pat)
  {
    if k + i + |pat| <= |s| {
      assert s[k..][i..i + |pat|] == s[k + i..k + i + |pat|];
    }
  }

  /** A suffix of a string without pat is without pat. */
  lemma {:induction false} AbsentFrom(s: string, k: nat, pat: string)
    requires k <= |s|
    requires forall i :: k <= i ==> !HasAt(s, i, pat)
    ensures Absent(s[k..], pat)
  {
    forall i | 0 <= i <= |s[k..]| ensures !HasAt(s[k..], i, pat) {
      HasAtShift(s, k, i, pat);
    }
  }

  lemma {:induction false} NoStartLeavesTail(s: string)
    requires Find(s, BEGIN_EVENT, 0).None?
    ensures Settled(if |s| > KEEP_TAIL then s[|s| - KEEP_TAIL..] else s)
  {
    FindSpec(s, BEGIN_EVENT, 0);
    var k := if |s| > KEEP_TAIL then |s| - KEEP_TAIL else 0;
    AbsentFrom(s, k, BEGIN_EVENT);
    assert s[0..] == s;
  }

  lemma {:induction false} UnfinishedEventSettles(s: string, start: nat)
    requires Find(s, BEGIN_EVENT, 0) == Some(start)
    requires Find(s, END_EVENT, start).None?
    ensures Settled(s[start..])
  {
    FindSpec(s, BEGIN_EVENT, 0);
    FindSpec(s, END_EVENT, start);
    HasAtShift(s, start, 0, BEGIN_EVENT);
    AbsentFrom(s, start, END_EVENT);
  }

  // ---------------------------------------------------------------------------
  // Properties of the stream
  // ---------------------------------------------------------------------------

  /**
   When FeedData finds the buffer still full after ProcessBuffer, the buffer holds
   an unfinished event, so the oversized event is dropped whole: the branch that
   skips past an "END:VEVENT" is never taken.
   */
  lemma {:induction false} OverflowDropsEverything(p: Parser, fuel: nat)
    requires Valid(p)
    ensures var r := ProcessBuffer(p, fuel);
      r.Running? && |r.parser.buffer| >= BUFFER_SIZE - 1 ==>
        Find(r.parser.buffer, END_EVENT, 0).None? && DropOversized(r.parser.buffer) == []
  {
    var r := ProcessBuffer(p, fuel);
    if r.Running? && |r.parser.buffer| >= BUFFER_SIZE - 1 {
      var b := r.parser.buffer;
      assert HasAt(b, 0, BEGIN_EVENT) && Absent(b, END_EVENT);
      forall i | 0 <= i ensures !HasAt(b, i, END_EVENT) {
        if i > |b| {
          assert !HasAt(b, i, END_EVENT);
        }
      }
      FindAbsent(b, END_EVENT, 0);
    }
  }

  /** A chunk that fits in the buffer is appended and processed in one step. */
  lemma {:induction false} SmallChunkIsOneStep(p: Parser, data: string, fuel: nat)
    requires Valid(p) && data != [] && |p.buffer| + |data| < BUFFER_SIZE
    ensures FeedData(p, data, fuel) == ProcessBuffer(p.(buffer := p.buffer + data), fuel)
  {
    assert data[..|data|] == data;
    assert data[|data|..] == [];
  }

  /**
   The events emitted from index `from` on start between the event's start and the
   end of the window, and none on a recorded date.
   */
  predicate AvoidsRecorded(from: nat, emitted: seq<CalendarEvent>, ev: CalendarEvent, windowEnd: u32, ids: seq<u32>) {
    forall i | from <= i < |emitted| ::
      && ev.startTime <= emitted[i].startTime <= windowEnd
      && emitted[i].startTime - ev.startTime % Timestamp.SECONDS_PER_DAY !in ids
  }

  /**
   The instances a recurring event adds are instances of it, and none of them
   falls on a date recorded from a RECURRENCE-ID earlier, whatever event that
   override belonged to.
   */
  lemma {:induction false} RecurringAvoidsRecordedDates(p: Parser, ev: CalendarEvent, rule: IcsRRule.RRule, start: nat, end: nat, fuel: nat)
    requires Valid(p) && IcsRRule.Wf(rule) && end <= |p.buffer|
    ensures var r := Recurring(p, ev, rule, start, end, fuel);
      r.Running? ==> AvoidsRecorded(|p.emitted|, r.parser.emitted, ev, p.windowEnd, p.recurrenceIds)
  {
    var r := Recurring(p, ev, rule, start, end, fuel);
    if r.Running? {
      var ex, events := RecurringEmits(p, ev, rule, start, end, fuel);
      InstancesAvoid(p.emitted, events, r.parser.emitted, ev, rule, ex, p.recurrenceIds, p.windowEnd);
    }
  }

  /** What a running Recurring did: it emitted instances of the event that avoid the exclusion dates. */
  lemma {:induction false} RecurringEmits(p: Parser, ev: CalendarEvent, rule: IcsRRule.RRule, start: nat, end: nat, fuel: nat)
    returns (ex: seq<u32>, events: seq<CalendarEvent>)
    requires Valid(p) && IcsRRule.Wf(rule) && end <= |p.buffer|
    requires Recurring(p, ev, rule, start, end, fuel).Running?
    ensures p.recurrenceIds <= ex
    ensures forall i | 0 <= i < |events| :: IcsExpand.ExpandedInstance(ev, rule, ex, p.windowEnd, events[i])
    ensures Recurring(p, ev, rule, start, end, fuel).parser.emitted == p.emitted + events
  {
    ex := Exclusions(p.buffer, start, end, p.recurrenceIds).value;
    events := IcsExpand.ExpandRecurringEvent(ev, rule, ex, p.windowStart, p.windowEnd, fuel).events;
    IcsExpand.ExpandedInstancesGood(ev, rule, ex, p.windowStart, p.windowEnd, fuel);
  }

  lemma {:induction false} InstancesAvoid(before: seq<CalendarEvent>, events: seq<CalendarEvent>, emitted: seq<CalendarEvent>,
                                          ev: CalendarEvent, rule: IcsRRule.RRule, ex: seq<u32>, ids: seq<u32>, windowEnd: u32)
    requires ids <= ex && emitted == before + events
    requires forall i | 0 <= i < |events| :: IcsExpand.ExpandedInstance(ev, rule, ex, windowEnd, events[i])
    ensures AvoidsRecorded(|before|, emitted, ev, windowEnd, ids)
  {
    forall i | |before| <= i < |emitted|
      ensures ev.startTime <= emitted[i].startTime <= windowEnd
      ensures emitted[i].startTime - ev.startTime % Timestamp.SECONDS_PER_DAY !in ids
    {
      var e := events[i - |before|];
      assert emitted[i] == e;
      assert IcsExpand.ExpandedInstance(ev, rule, ex, windowEnd, e);
    }
  }
}
