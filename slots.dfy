/** The time-slot model: the time scale, the hourly booking grid of a day,
    the half-open overlap rule shared by availability and conflict checks,
    the "HH:MM" slot labels, and the fixed UTC-to-Asia/Kolkata shift.

    Instants are naive local date-times counted in microseconds from an
    arbitrary epoch: microseconds are the finest unit the source's
    timestamps carry. A date is a day number; its midnight is DayStart(d). */
module Slots {

  const Second: int := 1_000_000
  const Minute: int := 60 * Second
  const Hour: int := 60 * Minute
  const Day: int := 24 * Hour

  /** First and one-past-last grid hours: `range(9, 18)`. */
  const OpenHour: nat := 9
  const CloseHour: nat := 18

  /** Asia/Kolkata has been a fixed UTC+05:30, with no daylight saving, since 1945. */
  const KolkataOffset: int := 330 * Minute

  /** Midnight (`datetime.min.time()`) of day `d`. */
  function DayStart(d: int): int {
    d * Day
  }

  /** The last representable instant of day `d` (`datetime.max.time()`,
      23:59:59.999999). */
  function DayLast(d: int): (t: int)
    ensures DayStart(d) < t < DayStart(d + 1)
    ensures t + 1 == DayStart(d + 1)
  {
    DayStart(d) + Day - 1
  }

  /** Start and end of the one-hour slot that begins at hour `h` of day `d`. */
  function SlotStart(d: int, h: nat): int {
    DayStart(d) + h * Hour
  }

  function SlotEnd(d: int, h: nat): int {
    SlotStart(d, h) + Hour
  }

  /** The hours of the daily grid, in order. */
  function Grid(): seq<nat> {
    [9, 10, 11, 12, 13, 14, 15, 16, 17]
  }

  predicate InGrid(h: nat) {
    OpenHour <= h < CloseHour
  }

  /** The interval [aStart, aEnd) meets [bStart, bEnd): the test written as
      `booking.start_time < end_time and booking.end_time > start_time`. */
  predicate Overlaps(aStart: int, aEnd: int, bStart: int, bEnd: int) {
    aStart < bEnd && aEnd > bStart
  }

  /** Overlap does not depend on which interval is named first. */
  lemma OverlapsSymmetric(aStart: int, aEnd: int, bStart: int, bEnd: int)
    ensures Overlaps(aStart, aEnd, bStart, bEnd) == Overlaps(bStart, bEnd, aStart, aEnd)
  {
  }

  /** Half-open intervals: touching at an end point is not an overlap, and a
      non-empty interval always overlaps itself. */
  lemma OverlapsHalfOpen(s: int, m: int, e: int)
    ensures !Overlaps(s, m, m, e) && !Overlaps(m, e, s, m)
    ensures s < m ==> Overlaps(s, m, s, m)
  {
  }

  /** The grid: nine contiguous one-hour slots covering [09:00, 18:00),
      with no two slots overlapping. */
  lemma GridShape(d: int)
    ensures |Grid()| == CloseHour - OpenHour == 9
    ensures forall k :: 0 <= k < |Grid()| ==> Grid()[k] == OpenHour + k && InGrid(Grid()[k])
    ensures forall h: nat :: InGrid(h) ==> h in Grid()
    ensures SlotStart(d, Grid()[0]) == DayStart(d) + 9 * Hour
    ensures SlotEnd(d, Grid()[8]) == DayStart(d) + 18 * Hour
    ensures forall k :: 0 <= k < |Grid()| - 1 ==> SlotEnd(d, Grid()[k]) == SlotStart(d, Grid()[k + 1])
    ensures forall j, k :: 0 <= j < k < |Grid()| ==>
              !Overlaps(SlotStart(d, Grid()[j]), SlotEnd(d, Grid()[j]), SlotStart(d, Grid()[k]), SlotEnd(d, Grid()[k]))
  {
  }

  /** Local time of a UTC instant: `astimezone(Asia/Kolkata)` with the zone
      information dropped. */
  function ToKolkata(utc: int): int {
    utc + KolkataOffset
  }

  /** The shift keeps durations and order. */
  lemma ToKolkataKeepsShape(s: int, e: int)
    ensures ToKolkata(e) - ToKolkata(s) == e - s
    ensures s < e <==> ToKolkata(s) < ToKolkata(e)
  {
  }

  /** One decimal digit as a character. */
  function Digit(n: nat): (c: char)
    requires n < 10
    ensures '0' <= c <= '9' && c as int - '0' as int == n
  {
    ('0' as int + n) as char
  }

  /** `strftime('%H:%M')` of the slot that starts at hour `h` (always on the hour). */
  function Label(h: nat): (s: string)
    requires h < 24
    ensures |s| == 5 && s[2] == ':' && s[3] == '0' && s[4] == '0'
    ensures '0' <= s[0] <= '9' && '0' <= s[1] <= '9'
    ensures (s[0] as int - '0' as int) * 10 + (s[1] as int - '0' as int) == h
  {
    [Digit(h / 10), Digit(h % 10), ':', '0', '0']
  }

  /** Python's string order: lexicographic by code point. */
  predicate StrLess(a: string, b: string) {
    |b| > 0 && (|a| == 0 || a[0] < b[0] || (a[0] == b[0] && StrLess(a[1..], b[1..])))
  }

  /** Labels are distinct for distinct hours and sort as their hours do. */
  lemma LabelOrder(h1: nat, h2: nat)
    requires h1 < h2 < 24
    ensures Label(h1) != Label(h2)
    ensures StrLess(Label(h1), Label(h2)) && !StrLess(Label(h2), Label(h1))
  {
  }

  /** Labels of a sequence of hours. */
  function Labels(hs: seq<nat>): (ls: seq<string>)
    requires forall k :: 0 <= k < |hs| ==> hs[k] < 24
    ensures |ls| == |hs| && forall k :: 0 <= k < |hs| ==> ls[k] == Label(hs[k])
  {
    if hs == [] then [] else [Label(hs[0])] + Labels(hs[1..])
  }

  /** The nine grid labels are "09:00", "10:00", ..., "17:00". */
  lemma GridLabels()
    ensures Labels(Grid()) == ["09:00", "10:00", "11:00", "12:00", "13:00", "14:00", "15:00", "16:00", "17:00"]
  {
  }
}
