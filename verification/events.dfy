/**
 The calendar event record the ICS parser fills and the calendar and
 upcoming-events widgets display (`CalendarEvent` of calendar_widget.h).
 */
module Events {
  import opened Machine

  /** Size of the title buffer: at most 63 characters and the terminating NUL. */
  const TITLE_SIZE: nat := 64
  /** Size of each colour buffer ("#RRGGBB" and the NUL). */
  const COLOR_SIZE: nat := 8

  datatype CalendarEvent = CalendarEvent(
    title: string,
    startTime: u32,
    endTime: u32,
    eventColor: string,
    calendarColor: string,
    allDay: bool)

  /** The buffers the C struct gives each text field are never overrun. */
  predicate FitsBuffers(e: CalendarEvent) {
    |e.title| < TITLE_SIZE && |e.eventColor| < COLOR_SIZE && |e.calendarColor| < COLOR_SIZE
  }
}
