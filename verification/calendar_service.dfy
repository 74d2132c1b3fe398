/**
 Fetching one calendar: the GET of its URL, the body fed to a fresh streaming
 ICS parser in chunks of CHUNK_SIZE bytes, and the parser's events appended to
 the shared event array while it has room. The array is the sequence of events
 stored so far; `maxEvents` is its capacity.
 */
module CalendarService {
  import opened Wrappers
  import opened Machine
  import opened Events
  import Configuration
  import HttpClient
  import IcsStream

  const CHUNK_SIZE: nat := 8192

  // ---------------------------------------------------------------------------
  // The event collector
  // ---------------------------------------------------------------------------

  /** CollectEvent: the event is stored when the array has room, and dropped otherwise. */
  function CollectEvent(stored: seq<CalendarEvent>, maxEvents: int, ev: CalendarEvent): (r: seq<CalendarEvent>)
    ensures |stored| < maxEvents ==> r == stored + [ev]
    ensures |stored| >= maxEvents ==> r == stored
  {
    if |stored| < maxEvents then stored + [ev] else stored
  }

  /** The callback applied to each event the parser reports, in order. */
  function CollectAll(stored: seq<CalendarEvent>, maxEvents: int, events: seq<CalendarEvent>): (r: seq<CalendarEvent>)
    decreases |events|
  {
    if events == [] then stored
    else CollectAll(CollectEvent(stored, maxEvents, events[0]), maxEvents, events[1..])
  }

  /** How many of n reported events fit behind `count` stored ones. */
  function Room(count: nat, maxEvents: int, n: nat): (k: nat)
    ensures k <= n
    ensures count + k <= maxEvents || k == 0
    ensures k < n ==> count + k >= maxEvents
  {
    if maxEvents <= count then 0 else if maxEvents - count < n then maxEvents - count else n
  }

  /**
   The collector keeps the events already stored and appends the first reported
   events up to the capacity, in the order they were reported.
   */
  lemma {:induction false} CollectAllKeepsPrefix(stored: seq<CalendarEvent>, maxEvents: int, events: seq<CalendarEvent>)
    ensures CollectAll(stored, maxEvents, events) == stored + events[..Room(|stored|, maxEvents, |events|)]
    decreases |events|
  {
    if events != [] {
      var next := CollectEvent(stored, maxEvents, events[0]);
      CollectAllKeepsPrefix(next, maxEvents, events[1..]);
      if |stored| < maxEvents {
        var k := Room(|next|, maxEvents, |events| - 1);
        assert Room(|stored|, maxEvents, |events|) == k + 1;
        assert events[..k + 1] == [events[0]] + events[1..][..k];
      } else {
        assert events[..0] == [];
      }
    } else {
      assert events[..0] == [];
    }
  }

  // ---------------------------------------------------------------------------
  // Chunked feeding
  // ---------------------------------------------------------------------------

  /** The body cut into consecutive pieces of CHUNK_SIZE bytes, the last one shorter. */
  function Chunks(body: string): (r: seq<string>)
    ensures forall i | 0 <= i < |r| :: 0 < |r[i]| <= CHUNK_SIZE
    decreases |body|
  {
    if body == [] then []
    else if |body| <= CHUNK_SIZE then [body]
    else [body[..CHUNK_SIZE]] + Chunks(body[CHUNK_SIZE..])
  }

  function Concat(pieces: seq<string>): string
    decreases |pieces|
  {
    if pieces == [] then [] else pieces[0] + Concat(pieces[1..])
  }

  /** The chunks are the body: nothing is skipped or repeated. */
  lemma {:induction false} ChunksConcat(body: string)
    ensures Concat(Chunks(body)) == body
    ensures |Chunks(body)| == (|body| + CHUNK_SIZE - 1) / CHUNK_SIZE
    decreases |body|
  {
    if |body| > CHUNK_SIZE {
      var rest := body[CHUNK_SIZE..];
      ChunksConcat(rest);
      var c := Chunks(body);
      assert c[1..] == Chunks(rest);
      assert body == body[..CHUNK_SIZE] + rest;
    } else if body != [] {
      assert Chunks(body)[1..] == [];
    }
  }

  /** FeedData on each chunk in turn; a halted parser stops the fetch. */
  function FeedAll(p: IcsStream.Parser, chunks: seq<string>, fuel: nat): (r: IcsStream.Run)
    requires IcsStream.Valid(p)
    ensures r.Running? ==> IcsStream.Valid(r.parser) && IcsStream.Grows(p, r.parser)
    decreases |chunks|
  {
    if chunks == [] then IcsStream.Running(p)
    else
      match IcsStream.FeedData(p, chunks[0], fuel)
      case Halted(why) => IcsStream.Halted(why)
      case Running(q) =>
        var r := FeedAll(q, chunks[1..], fuel);
        GrowsTransitive(p, q, r);
        r
  }

  /** Grows composes along a run that keeps going. */
  lemma {:induction false} GrowsTransitive(p: IcsStream.Parser, q: IcsStream.Parser, r: IcsStream.Run)
    requires IcsStream.Grows(p, q)
    requires r.Running? ==> IcsStream.Grows(q, r.parser)
    ensures r.Running? ==> IcsStream.Grows(p, r.parser)
  {
  }

  // ---------------------------------------------------------------------------
  // FetchCalendar
  // ---------------------------------------------------------------------------

  /** A fetch either ends with the event array or halts inside the parser. */
  datatype Fetch = Fetched(events: seq<CalendarEvent>) | Stopped(why: IcsStream.Halt)

  /**
   FetchCalendar, given the outcome of the GET of the calendar's URL: a failed
   request or a status other than 200 leaves the array as it was; otherwise the
   body is parsed within the time window and the parser's events are collected.
   */
  function FetchCalendar(cal: Configuration.Calendar, got: bool, response: HttpClient.Response,
                         windowStart: u32, windowEnd: u32,
                         stored: seq<CalendarEvent>, maxEvents: int, fuel: nat): (r: Fetch)
    ensures !got || !response.success || response.statusCode != 200 ==> r == Fetched(stored)
    ensures r.Fetched? ==> stored <= r.events
    ensures r.Fetched? ==> |r.events| == |stored| || |r.events| <= maxEvents
  {
    if !got || !response.success || response.statusCode != 200 then Fetched(stored)
    else
      var start := IcsStream.NewParser(cal.color, windowStart, windowEnd);
      match FeedAll(start, Chunks(response.body), fuel)
      case Halted(why) => Stopped(why)
      case Running(fed) =>
        match IcsStream.Finish(fed, fuel)
        case Halted(why) => Stopped(why)
        case Running(done) =>
          CollectAllKeepsPrefix(stored, maxEvents, done.emitted);
          Fetched(CollectAll(stored, maxEvents, done.emitted))
  }

  /**
   The events a fetch adds are the first events the parser reported, as many as
   fit: the array ends with every reported event when there is room for all.
   */
  lemma {:induction false} FetchAddsReportedEvents(cal: Configuration.Calendar, response: HttpClient.Response,
                                                   windowStart: u32, windowEnd: u32,
                                                   stored: seq<CalendarEvent>, maxEvents: int, fuel: nat,
                                                   done: IcsStream.Parser)
    requires response.success && response.statusCode == 200
    requires var start := IcsStream.NewParser(cal.color, windowStart, windowEnd);
             var fed := FeedAll(start, Chunks(response.body), fuel);
             fed.Running? && IcsStream.Finish(fed.parser, fuel) == IcsStream.Running(done)
    ensures FetchCalendar(cal, true, response, windowStart, windowEnd, stored, maxEvents, fuel)
            == Fetched(stored + done.emitted[..Room(|stored|, maxEvents, |done.emitted|)])
    ensures |stored| + |done.emitted| <= maxEvents ==>
              FetchCalendar(cal, true, response, windowStart, windowEnd, stored, maxEvents, fuel)
              == Fetched(stored + done.emitted)
  {
    CollectAllKeepsPrefix(stored, maxEvents, done.emitted);
    assert done.emitted[..|done.emitted|] == done.emitted;
  }

  /** A full array takes no more events, whatever the calendar holds. */
  lemma {:induction false} FullArrayUnchanged(cal: Configuration.Calendar, got: bool, response: HttpClient.Response,
                                              windowStart: u32, windowEnd: u32,
                                              stored: seq<CalendarEvent>, maxEvents: int, fuel: nat)
    requires |stored| >= maxEvents
    ensures var r := FetchCalendar(cal, got, response, windowStart, windowEnd, stored, maxEvents, fuel);
            r.Fetched? ==> r.events == stored
  {
  }

  /** A body that fits one chunk is fed in a single FeedData call. */
  lemma {:induction false} SmallBodyOneChunk(body: string)
    requires 0 < |body| <= CHUNK_SIZE
    ensures Chunks(body) == [body]
  {
  }
}
