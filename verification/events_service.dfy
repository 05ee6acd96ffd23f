/**
 * `EventsService`: creating an event together with its seats, listing
 * events page by page, reading an event and its seats, updating and
 * deleting an event with everything that refers to it.
 */
module EventsService {
  import opened Results
  import opened Schema
  import Decimal

  const DefaultPage := 1
  const DefaultLimit := 10
  const SeatsPerRow := 10
  const GeneralSection := "General"
  /** The default of `events.status`; create does not set the column. */
  const PublishedStatus := "published"

  /**
   * The columns `CreateEventDto` can set. Its `startDate`, `endDate` and
   * `venueId` have no column in the events table and are not modelled.
   */
  datatype CreateEventDto = CreateEventDto(
    title: string,
    description: Option<string>,
    imageUrl: Option<string>,
    totalSeats: int)

  /** `Partial<CreateEventDto>`: the fields an update may supply. */
  datatype EventPatch = EventPatch(
    title: Option<string>,
    description: Option<string>,
    imageUrl: Option<string>,
    totalSeats: Option<int>)

  function EventNotFoundMessage(id: int): string
  {
    "Event #" + Decimal.IntToString(id) + " not found"
  }

  function EventDeletedMessage(id: int): string
  {
    "Event #" + Decimal.IntToString(id) + " deleted"
  }

  // ---------------------------------------------------------------- create

  /** Row number of the i-th seat, `Math.ceil(i / 10)`: the least r with i <= 10r. */
  function RowOf(i: nat): (r: nat)
    ensures SeatsPerRow * (r - 1) < i <= SeatsPerRow * r
  {
    (i + SeatsPerRow - 1) / SeatsPerRow
  }

  /** The i-th seat the creation loop builds (i counts from 1). */
  function NewSeat(eventId: int, i: nat): Seat
  {
    Seat(eventId, GeneralSection, Decimal.NatToString(RowOf(i)), Decimal.NatToString(i), Available)
  }

  /** The i-th seat is a free "General" seat of its event whose number and row read back as i and ceil(i/10). */
  lemma NewSeatReadsBack(eventId: int, i: nat)
    ensures var seat := NewSeat(eventId, i);
            && seat.eventId == eventId && seat.section == GeneralSection && seat.status == Available
            && Decimal.AllDigits(seat.number) && Decimal.ParseNat(seat.number) == i
            && Decimal.AllDigits(seat.row) && Decimal.ParseNat(seat.row) == RowOf(i)
  {
    Decimal.ParseNatToString(i);
    Decimal.ParseNatToString(RowOf(i));
  }

  /**
   * The seat-building loop of `create`, one row per iteration for
   * i = 1..totalSeats; inserted from `firstSeatId` on, the rows are the
   * seats `SeatBatch` adds to the table.
   */
  method BuildSeatRows(eventId: int, totalSeats: int, firstSeatId: int) returns (rows: seq<Seat>)
    ensures totalSeats >= 0 ==> |rows| == totalSeats
    ensures totalSeats < 0 ==> rows == []
    ensures forall k :: 0 <= k < |rows| ==> rows[k] == NewSeat(eventId, k + 1)
    ensures totalSeats >= 0 ==>
              var batch := SeatBatch(eventId, firstSeatId, totalSeats);
              forall k :: 0 <= k < |rows| ==> firstSeatId + k in batch && rows[k] == batch[firstSeatId + k]
  {
    rows := [];
    var i := 1;
    while i <= totalSeats
      invariant 1 <= i
      invariant i <= if totalSeats >= 0 then totalSeats + 1 else 1
      invariant |rows| == i - 1
      invariant forall k :: 0 <= k < |rows| ==> rows[k] == NewSeat(eventId, k + 1)
    {
      rows := rows + [NewSeat(eventId, i)];
      i := i + 1;
    }
    if totalSeats >= 0 {
      var batch := SeatBatch(eventId, firstSeatId, totalSeats);
      forall k | 0 <= k < |rows| ensures firstSeatId + k in batch && rows[k] == batch[firstSeatId + k] {
        assert firstSeatId + k - firstSeatId + 1 == k + 1;
      }
    }
  }

  /** The seat ids a batch insert of `n` rows receives: `firstSeatId` onwards, consecutively. */
  function SeatIdRange(firstSeatId: int, n: nat): (ids: set<int>)
    ensures forall k :: k in ids <==> firstSeatId <= k < firstSeatId + n
    ensures |ids| == n
  {
    if n == 0 then {} else SeatIdRange(firstSeatId, n - 1) + {firstSeatId + n - 1}
  }

  /** The inserted seat batch: the k-th row built receives id `firstSeatId + k`. */
  function SeatBatch(eventId: int, firstSeatId: int, n: nat): (m: map<int, Seat>)
    ensures forall id :: id in m <==> firstSeatId <= id < firstSeatId + n
    ensures forall id :: id in m ==> m[id] == NewSeat(eventId, id - firstSeatId + 1)
  {
    var ids := SeatIdRange(firstSeatId, n);
    map id | id in ids :: NewSeat(eventId, id - firstSeatId + 1)
  }

  /** Adding rows under fresh keys keeps every old row and adds exactly the new ones. */
  lemma DisjointUnion<K, V>(existing: map<K, V>, added: map<K, V>)
    requires forall k :: k in added ==> k !in existing
    ensures forall k :: k in existing + added <==> k in existing || k in added
    ensures forall k :: k in existing ==> (existing + added)[k] == existing[k]
    ensures forall k :: k in added ==> (existing + added)[k] == added[k]
  {
  }

  /**
   * `create(dto)`. `eventId` is the id the database assigns to the event
   * row and `firstSeatId` the first id of the seat batch.
   */
  function Create(db: Db, dto: CreateEventDto, eventId: int, firstSeatId: int): (r: (Db, Event))
    requires dto.totalSeats >= 1
    requires eventId !in db.events
    requires forall k :: firstSeatId <= k < firstSeatId + dto.totalSeats ==> k !in db.seats
    ensures r.0.events == db.events[eventId := r.1]
    ensures r.1 == Event(dto.title, dto.description, dto.imageUrl, dto.totalSeats, dto.totalSeats, PublishedStatus)
    ensures r.0.bookings == db.bookings
    ensures forall s :: s in r.0.seats <==> s in db.seats || firstSeatId <= s < firstSeatId + dto.totalSeats
    ensures forall s :: s in db.seats ==> r.0.seats[s] == db.seats[s]
    ensures forall s :: s in r.0.seats && s !in db.seats ==>
              r.0.seats[s] == NewSeat(eventId, s - firstSeatId + 1)
  {
    var event := Event(dto.title, dto.description, dto.imageUrl, dto.totalSeats, dto.totalSeats, PublishedStatus);
    var batch := SeatBatch(eventId, firstSeatId, dto.totalSeats);
    DisjointUnion(db.seats, batch);
    (Db(db.events[eventId := event], db.seats + batch, db.bookings), event)
  }

  // --------------------------------------------------------------- findAll

  /** An optional string filter is applied only when it is present and non-empty. */
  predicate IsGiven(filter: Option<string>)
  {
    filter.Some? && filter.value != ""
  }

  predicate OccursAt(s: string, sub: string, i: int)
  {
    0 <= i && i + |sub| <= |s| && s[i..i + |sub|] == sub
  }

  /** Plain substring containment, standing in for `LIKE '%search%'`. */
  predicate Contains(s: string, sub: string)
  {
    exists i :: 0 <= i <= |s| && OccursAt(s, sub, i)
  }

  datatype EventQuery = EventQuery(page: Option<int>, limit: Option<int>, search: Option<string>, status: Option<string>)

  predicate ValidQuery(q: EventQuery)
  {
    (q.page.Some? ==> q.page.value >= 1) && (q.limit.Some? ==> q.limit.value >= 1)
  }

  function PageOf(q: EventQuery): int
  {
    if q.page.Some? then q.page.value else DefaultPage
  }

  function LimitOf(q: EventQuery): int
  {
    if q.limit.Some? then q.limit.value else DefaultLimit
  }

  /** The where-clause of `findAll`: the title filter and the status filter, each when given. */
  predicate Matches(e: Event, search: Option<string>, status: Option<string>)
    ensures !IsGiven(search) && !IsGiven(status) ==> Matches(e, search, status)
    ensures Matches(e, search, status) && IsGiven(status) ==> e.status == status.value
    ensures Matches(e, search, status) && IsGiven(search) ==> Contains(e.title, search.value)
  {
    && (IsGiven(search) ==> Contains(e.title, search.value))
    && (IsGiven(status) ==> e.status == status.value)
  }

  /** Ids of the events the where-clause selects. */
  function MatchingIds(events: map<int, Event>, search: Option<string>, status: Option<string>): set<int>
  {
    set id | id in events && Matches(events[id], search, status)
  }

  ghost predicate NoRepeats(scan: seq<int>)
  {
    forall i, j :: 0 <= i < j < |scan| ==> scan[i] != scan[j]
  }

  /** `scan` is the order in which the table yields its rows: every id exactly once. */
  ghost predicate IsScanOrder(scan: seq<int>, events: map<int, Event>)
  {
    && (forall i :: 0 <= i < |scan| ==> scan[i] in events)
    && (forall id :: id in events ==> id in scan)
    && NoRepeats(scan)
  }

  /** The selected rows, in scan order. */
  function Filtered(scan: seq<int>, events: map<int, Event>, search: Option<string>, status: Option<string>): (rows: seq<(int, Event)>)
    requires forall i :: 0 <= i < |scan| ==> scan[i] in events
    ensures |rows| <= |scan|
    ensures (forall i :: 0 <= i < |scan| ==> Matches(events[scan[i]], search, status)) ==> |rows| == |scan|
  {
    if |scan| == 0 then []
    else
      var head := if Matches(events[scan[0]], search, status) then [(scan[0], events[scan[0]])] else [];
      head + Filtered(scan[1..], events, search, status)
  }

  function Min(a: int, b: int): int
  {
    if a <= b then a else b
  }

  /** `Math.ceil(total / limit)` for a whole, non-negative total. */
  function CeilDiv(total: nat, limit: int): (pages: nat)
    requires limit >= 1
    ensures limit * pages >= total
    ensures pages == 0 || limit * (pages - 1) < total
  {
    (total + limit - 1) / limit
  }

  datatype PageMeta = PageMeta(total: nat, page: int, limit: int, totalPages: nat)
  datatype EventPage = EventPage(data: seq<(int, Event)>, meta: PageMeta)

  /** The OFFSET of page `page` (counted from 1): `(page - 1) * limit`. */
  function Offset(page: int, limit: nat): (offset: nat)
    requires page >= 1
    ensures page == 1 ==> offset == 0
  {
    (page - 1) * limit
  }

  /** The offset of page p skips exactly p - 1 whole pages. */
  lemma OffsetSkipsWholePages(page: int, limit: nat)
    requires page >= 1 && limit >= 1
    ensures Offset(page, limit) % limit == 0
    ensures Offset(page, limit) / limit == page - 1
  {
    var offset := Offset(page, limit);
    var q, r := offset / limit, offset % limit;
    var k := page - 1 - q;
    assert offset == (page - 1) * limit == q * limit + r;
    assert k * limit == (page - 1) * limit - q * limit;
    assert k * limit == r;
  }

  /** Rows `[offset, offset + limit)` of `rows`, clipped to its length (`LIMIT … OFFSET …`). */
  function Window<T>(rows: seq<T>, offset: nat, limit: nat): (w: seq<T>)
    ensures |w| == if offset < |rows| then Min(limit, |rows| - offset) else 0
    ensures forall k :: 0 <= k < |w| ==> offset + k < |rows| && w[k] == rows[offset + k]
  {
    var lo := if offset <= |rows| then offset else |rows|;
    var hi := if offset + limit <= |rows| then offset + limit else |rows|;
    rows[lo..hi]
  }

  /** `findAll(query)`: one page of the selected events and the paging metadata. */
  function FindAll(db: Db, q: EventQuery, scan: seq<int>): (r: EventPage)
    requires IsScanOrder(scan, db.events)
    requires ValidQuery(q)
    ensures r.meta.page == PageOf(q) && r.meta.limit == LimitOf(q)
    ensures |r.data| <= r.meta.limit
    ensures forall k :: 0 <= k < |r.data| ==>
              r.data[k].0 in db.events && r.data[k].1 == db.events[r.data[k].0] && Matches(r.data[k].1, q.search, q.status)
    ensures r.meta.total == |MatchingIds(db.events, q.search, q.status)|
    ensures r.meta.totalPages == CeilDiv(r.meta.total, r.meta.limit)
    // the page holds rows [offset, offset + limit) of the selection, clipped to its end
    ensures var offset := Offset(PageOf(q), LimitOf(q));
            |r.data| == if offset < r.meta.total then Min(LimitOf(q), r.meta.total - offset) else 0
    ensures var offset := Offset(PageOf(q), LimitOf(q));
            var rows := Filtered(scan, db.events, q.search, q.status);
            forall k :: 0 <= k < |r.data| ==> offset + k < |rows| && r.data[k] == rows[offset + k]
  {
    var rows := Filtered(scan, db.events, q.search, q.status);
    var page := PageOf(q);
    var limit := LimitOf(q);
    FilteredSound(scan, db.events, q.search, q.status);
    FilteredCountsMatches(scan, db.events, q.search, q.status);
    EventPage(Window(rows, Offset(page, limit), limit), PageMeta(|rows|, page, limit, CeilDiv(|rows|, limit)))
  }

  /** Every row `Filtered` yields is a selected row of the table. */
  lemma {:induction false} FilteredSound(scan: seq<int>, events: map<int, Event>, search: Option<string>, status: Option<string>)
    requires forall i :: 0 <= i < |scan| ==> scan[i] in events
    ensures forall k :: 0 <= k < |Filtered(scan, events, search, status)| ==>
              var row := Filtered(scan, events, search, status)[k];
              row.0 in scan && row.0 in events && row.1 == events[row.0] && Matches(row.1, search, status)
    decreases |scan|
  {
    if |scan| > 0 {
      FilteredSound(scan[1..], events, search, status);
    }
  }

  /** Ids of the rows of `scan` the where-clause selects. */
  function MatchingInScan(scan: seq<int>, events: map<int, Event>, search: Option<string>, status: Option<string>): (ids: set<int>)
    requires forall i :: 0 <= i < |scan| ==> scan[i] in events
    ensures forall id :: id in ids <==> id in scan && id in events && Matches(events[id], search, status)
  {
    if |scan| == 0 then {}
    else
      var head := if Matches(events[scan[0]], search, status) then {scan[0]} else {};
      head + MatchingInScan(scan[1..], events, search, status)
  }

  /** A scan without repeated ids yields one row per selected id. */
  lemma {:induction false} FilteredLength(scan: seq<int>, events: map<int, Event>, search: Option<string>, status: Option<string>)
    requires forall i :: 0 <= i < |scan| ==> scan[i] in events
    requires NoRepeats(scan)
    ensures |Filtered(scan, events, search, status)| == |MatchingInScan(scan, events, search, status)|
    decreases |scan|
  {
    if |scan| > 0 {
      NoRepeatsTail(scan);
      FilteredLength(scan[1..], events, search, status);
    }
  }

  /** The tail of a repetition-free sequence is repetition-free and lacks the head. */
  lemma NoRepeatsTail(scan: seq<int>)
    requires |scan| > 0
    requires NoRepeats(scan)
    ensures NoRepeats(scan[1..])
    ensures scan[0] !in scan[1..]
  {
    forall i | 0 <= i < |scan| - 1 ensures scan[1..][i] != scan[0] {
      assert scan[1..][i] == scan[i + 1];
    }
  }

  /** A scan that visits every row selects exactly the ids the where-clause selects. */
  lemma ScanSelectsMatching(scan: seq<int>, events: map<int, Event>, search: Option<string>, status: Option<string>)
    requires IsScanOrder(scan, events)
    ensures MatchingInScan(scan, events, search, status) == MatchingIds(events, search, status)
  {
    forall id | id in MatchingIds(events, search, status) ensures id in MatchingInScan(scan, events, search, status) {
      var i :| 0 <= i < |scan| && scan[i] == id;
    }
  }

  /** `total` counts every selected event of the table, whatever the page. */
  lemma FilteredCountsMatches(scan: seq<int>, events: map<int, Event>, search: Option<string>, status: Option<string>)
    requires IsScanOrder(scan, events)
    ensures |Filtered(scan, events, search, status)| == |MatchingIds(events, search, status)|
  {
    FilteredLength(scan, events, search, status);
    ScanSelectsMatching(scan, events, search, status);
  }

  /** No id occurs in two rows. */
  predicate DistinctIds(rows: seq<(int, Event)>)
  {
    forall i, j :: 0 <= i < j < |rows| ==> rows[i].0 != rows[j].0
  }

  /** A scan without repeated ids lists each of its selected rows exactly once. */
  lemma {:induction false} FilteredListsMatchesOnce(scan: seq<int>, events: map<int, Event>, search: Option<string>, status: Option<string>)
    requires forall i :: 0 <= i < |scan| ==> scan[i] in events
    requires NoRepeats(scan)
    ensures DistinctIds(Filtered(scan, events, search, status))
    ensures forall id :: id in MatchingInScan(scan, events, search, status) ==>
              (id, events[id]) in Filtered(scan, events, search, status)
    decreases |scan|
  {
    if |scan| > 0 {
      var tail := scan[1..];
      NoRepeatsTail(scan);
      FilteredListsMatchesOnce(tail, events, search, status);
      FilteredSound(tail, events, search, status);
      var rest := Filtered(tail, events, search, status);
      var rows := Filtered(scan, events, search, status);
      if Matches(events[scan[0]], search, status) {
        assert rows == [(scan[0], events[scan[0]])] + rest;
        forall i, j | 0 <= i < j < |rows| ensures rows[i].0 != rows[j].0 {
          assert rows[j] == rest[j - 1];
          if i == 0 {
            assert rows[0].0 == scan[0];
            assert rest[j - 1].0 in tail;
            assert scan[0] !in tail;
          } else {
            assert rows[i] == rest[i - 1];
            assert 0 <= i - 1 < j - 1 < |rest|;
          }
        }
      } else {
        assert rows == rest;
      }
      forall id | id in MatchingInScan(scan, events, search, status)
        ensures (id, events[id]) in rows
      {
        if id != scan[0] {
          assert id in MatchingInScan(tail, events, search, status);
          assert (id, events[id]) in rest;
        }
      }
    }
  }

  /**
   * The selection `findAll` pages through holds every selected event of the
   * table once: no id twice, none left out, each row the table's row.
   */
  lemma FilteredIsSelection(scan: seq<int>, events: map<int, Event>, search: Option<string>, status: Option<string>)
    requires IsScanOrder(scan, events)
    ensures var rows := Filtered(scan, events, search, status);
            && DistinctIds(rows)
            && (forall id :: id in MatchingIds(events, search, status) ==> (id, events[id]) in rows)
            && (forall k :: 0 <= k < |rows| ==>
                  rows[k].0 in MatchingIds(events, search, status) && rows[k].1 == events[rows[k].0])
  {
    FilteredListsMatchesOnce(scan, events, search, status);
    FilteredSound(scan, events, search, status);
    ScanSelectsMatching(scan, events, search, status);
  }

  /** The page `page` of `findAll` is the window of the selected rows at offset (page - 1) * limit. */
  lemma FindAllPage(db: Db, q: EventQuery, scan: seq<int>, page: int)
    requires IsScanOrder(scan, db.events)
    requires ValidQuery(q)
    requires page >= 1
    ensures FindAll(db, q.(page := Some(page)), scan).data
            == Window(Filtered(scan, db.events, q.search, q.status), Offset(page, LimitOf(q)), LimitOf(q))
  {
    var q' := q.(page := Some(page));
    assert PageOf(q') == page && LimitOf(q') == LimitOf(q);
    var offset := Offset(page, LimitOf(q));
    var rows := Filtered(scan, db.events, q.search, q.status);
    var w := Window(rows, offset, LimitOf(q));
    var data := FindAll(db, q', scan).data;
    FilteredCountsMatches(scan, db.events, q.search, q.status);
    assert |data| == |w|;
    assert forall k :: 0 <= k < |data| ==> data[k] == rows[offset + k] == w[k];
  }

  /** The first n windows of width `limit`, one after the other. */
  function Windows<T>(rows: seq<T>, limit: nat, n: nat): seq<T>
  {
    if n == 0 then [] else Windows(rows, limit, n - 1) + Window(rows, Offset(n, limit), limit)
  }

  lemma WindowsStep<T>(rows: seq<T>, limit: nat, n: nat)
    requires n > 0
    ensures Windows(rows, limit, n) == Windows(rows, limit, n - 1) + Window(rows, Offset(n, limit), limit)
  {
  }

  /** The first n windows together are the first n * limit rows. */
  lemma {:induction false} WindowsArePrefix<T>(rows: seq<T>, limit: nat, n: nat)
    ensures Windows(rows, limit, n) == rows[..if n * limit <= |rows| then n * limit else |rows|]
  {
    if n > 0 {
      WindowsArePrefix(rows, limit, n - 1);
      var offset := Offset(n, limit);
      assert offset == (n - 1) * limit && offset + limit == n * limit;
      var lo := if offset <= |rows| then offset else |rows|;
      var hi := if n * limit <= |rows| then n * limit else |rows|;
      assert lo <= hi;
      assert Window(rows, offset, limit) == rows[lo..hi];
      assert rows[..lo] + rows[lo..hi] == rows[..hi];
    }
  }

  /** Windows 1..ceil(|rows| / limit) together are all of `rows`. */
  lemma WindowsCoverAll<T>(rows: seq<T>, limit: int)
    requires limit >= 1
    ensures Windows(rows, limit, CeilDiv(|rows|, limit)) == rows
  {
    WindowsArePrefix(rows, limit, CeilDiv(|rows|, limit));
    assert rows[..|rows|] == rows;
  }

  /** Every window after window ceil(|rows| / limit) is empty. */
  lemma WindowsPastEndEmpty<T>(rows: seq<T>, limit: int, p: int)
    requires limit >= 1
    requires p > CeilDiv(|rows|, limit)
    ensures Window(rows, Offset(p, limit), limit) == []
  {
    var pages := CeilDiv(|rows|, limit);
    assert (p - 1) * limit >= pages * limit;
  }

  /** The rows of pages 1..n of `findAll` with the same filters and limit, one page after the other. */
  function PagesUpTo(db: Db, q: EventQuery, scan: seq<int>, n: nat): seq<(int, Event)>
    requires IsScanOrder(scan, db.events)
    requires ValidQuery(q)
  {
    if n == 0 then [] else PagesUpTo(db, q, scan, n - 1) + FindAll(db, q.(page := Some(n)), scan).data
  }

  lemma PagesUpToStep(db: Db, q: EventQuery, scan: seq<int>, n: nat)
    requires IsScanOrder(scan, db.events)
    requires ValidQuery(q)
    requires n > 0
    ensures PagesUpTo(db, q, scan, n) == PagesUpTo(db, q, scan, n - 1) + FindAll(db, q.(page := Some(n)), scan).data
  {
  }

  lemma PagesStep(db: Db, q: EventQuery, scan: seq<int>, n: nat)
    requires IsScanOrder(scan, db.events)
    requires ValidQuery(q)
    requires n > 0
    ensures PagesUpTo(db, q, scan, n) == PagesUpTo(db, q, scan, n - 1)
              + Window(Filtered(scan, db.events, q.search, q.status), Offset(n, LimitOf(q)), LimitOf(q))
  {
    PagesUpToStep(db, q, scan, n);
    FindAllPage(db, q, scan, n);
  }

  /** No pages list the same rows as no windows: none. */
  lemma NoPagesNoWindows(db: Db, q: EventQuery, scan: seq<int>)
    requires IsScanOrder(scan, db.events)
    requires ValidQuery(q)
    ensures PagesUpTo(db, q, scan, 0) == [] == Windows(Filtered(scan, db.events, q.search, q.status), LimitOf(q), 0)
  {
  }

  /** If pages 1..n-1 are the first n-1 windows, then pages 1..n are the first n windows. */
  lemma PagesAreWindowsStep(db: Db, q: EventQuery, scan: seq<int>, n: nat)
    requires IsScanOrder(scan, db.events)
    requires ValidQuery(q)
    requires n > 0
    requires PagesUpTo(db, q, scan, n - 1) == Windows(Filtered(scan, db.events, q.search, q.status), LimitOf(q), n - 1)
    ensures PagesUpTo(db, q, scan, n) == Windows(Filtered(scan, db.events, q.search, q.status), LimitOf(q), n)
  {
    PagesStep(db, q, scan, n);
    WindowsStep(Filtered(scan, db.events, q.search, q.status), LimitOf(q), n);
  }

  lemma {:induction false} PagesAreWindows(db: Db, q: EventQuery, scan: seq<int>, n: nat)
    requires IsScanOrder(scan, db.events)
    requires ValidQuery(q)
    ensures PagesUpTo(db, q, scan, n) == Windows(Filtered(scan, db.events, q.search, q.status), LimitOf(q), n)
  {
    NoPagesNoWindows(db, q, scan);
    var k := 0;
    while k < n
      invariant k <= n
      invariant PagesUpTo(db, q, scan, k) == Windows(Filtered(scan, db.events, q.search, q.status), LimitOf(q), k)
    {
      k := k + 1;
      PagesAreWindowsStep(db, q, scan, k);
    }
  }

  /**
   * Paging loses and repeats nothing: pages 1..totalPages of `findAll`,
   * one after the other, list every selected event exactly once, in scan order.
   * Every page request is given the same `scan` and the same `db`: the lemma
   * presumes that all page queries see one row order and an unchanged table.
   */
  lemma PagesCoverSelection(db: Db, q: EventQuery, scan: seq<int>)
    requires IsScanOrder(scan, db.events)
    requires ValidQuery(q)
    ensures var pages := PagesUpTo(db, q, scan, FindAll(db, q, scan).meta.totalPages);
            var selected := MatchingIds(db.events, q.search, q.status);
            && pages == Filtered(scan, db.events, q.search, q.status)
            && DistinctIds(pages)
            && (forall id :: id in selected ==> (id, db.events[id]) in pages)
            && (forall k :: 0 <= k < |pages| ==> pages[k].0 in selected && pages[k].1 == db.events[pages[k].0])
  {
    var rows := Filtered(scan, db.events, q.search, q.status);
    PagesAreWindows(db, q, scan, FindAll(db, q, scan).meta.totalPages);
    WindowsCoverAll(rows, LimitOf(q));
    FilteredIsSelection(scan, db.events, q.search, q.status);
  }

  /** A page after the last one is empty. */
  lemma PageAfterLastIsEmpty(db: Db, q: EventQuery, scan: seq<int>, p: int)
    requires IsScanOrder(scan, db.events)
    requires ValidQuery(q)
    requires p > FindAll(db, q, scan).meta.totalPages
    ensures FindAll(db, q.(page := Some(p)), scan).data == []
  {
    var rows := Filtered(scan, db.events, q.search, q.status);
    FilteredCountsMatches(scan, db.events, q.search, q.status);
    FindAllPage(db, q, scan, p);
    WindowsPastEndEmpty(rows, LimitOf(q), p);
  }

  // ------------------------------------------------- findOne, findSeats, update, remove

  /** `findOne(id)`. */
  function FindOne(db: Db, id: int): (r: Result<Event, Error>)
    ensures r.Ok? <==> id in db.events
    ensures r.Ok? ==> r.value == db.events[id]
    ensures r.Err? ==> r.error == NotFound(EventNotFoundMessage(id))
  {
    if id in db.events then Ok(db.events[id]) else Err(NotFound(EventNotFoundMessage(id)))
  }

  /** `findSeats(eventId, status?)`: the event's seats, optionally those with one status. */
  function FindSeats(db: Db, eventId: int, status: Option<string>): (r: Result<map<int, Seat>, Error>)
    ensures r.Err? <==> eventId !in db.events
    ensures r.Err? ==> r.error == NotFound(EventNotFoundMessage(eventId))
    ensures r.Ok? ==> forall s :: s in r.value <==>
              && s in db.seats
              && db.seats[s].eventId == eventId
              && (IsGiven(status) ==> SeatStatusName(db.seats[s].status) == status.value)
    ensures r.Ok? ==> forall s :: s in r.value ==> r.value[s] == db.seats[s]
  {
    if eventId !in db.events then Err(NotFound(EventNotFoundMessage(eventId)))
    else
      Ok(map s | s in db.seats && db.seats[s].eventId == eventId
                 && (IsGiven(status) ==> SeatStatusName(db.seats[s].status) == status.value)
               :: db.seats[s])
  }

  /** The event with the supplied fields overwritten. */
  function Patched(e: Event, patch: EventPatch): (p: Event)
    ensures p == e.(title := p.title, description := p.description, imageUrl := p.imageUrl, totalSeats := p.totalSeats)
    ensures p.availableSeats == e.availableSeats && p.status == e.status
    ensures p.title == (if patch.title.Some? then patch.title.value else e.title)
    ensures patch.description.Some? ==> p.description == patch.description
    ensures patch.description.None? ==> p.description == e.description
    ensures patch.imageUrl.Some? ==> p.imageUrl == patch.imageUrl
    ensures patch.imageUrl.None? ==> p.imageUrl == e.imageUrl
    ensures p.totalSeats == (if patch.totalSeats.Some? then patch.totalSeats.value else e.totalSeats)
  {
    e.(title := if patch.title.Some? then patch.title.value else e.title,
       description := if patch.description.Some? then patch.description else e.description,
       imageUrl := if patch.imageUrl.Some? then patch.imageUrl else e.imageUrl,
       totalSeats := if patch.totalSeats.Some? then patch.totalSeats.value else e.totalSeats)
  }

  /** `update(id, dto)`: overwrites the supplied columns of one event and nothing else. */
  function Update(db: Db, id: int, patch: EventPatch): (r: Step<Event>)
    ensures r.result.Err? ==> r.db == db
    ensures r.result.Err? <==> id !in db.events
    ensures r.result.Err? ==> r.result.error == NotFound(EventNotFoundMessage(id))
    ensures r.result.Ok? ==>
              var before := db.events[id];
              var after := r.result.value;
              && r.db.seats == db.seats
              && r.db.bookings == db.bookings
              && AgreeExcept(db.events, r.db.events, id)
              && r.db.events[id] == after
              && after.availableSeats == before.availableSeats
              && after.status == before.status
              && (patch.title.Some? ==> after.title == patch.title.value)
              && (patch.title.None? ==> after.title == before.title)
              && (patch.description.Some? ==> after.description == patch.description)
              && (patch.description.None? ==> after.description == before.description)
              && (patch.imageUrl.Some? ==> after.imageUrl == patch.imageUrl)
              && (patch.imageUrl.None? ==> after.imageUrl == before.imageUrl)
              && (patch.totalSeats.Some? ==> after.totalSeats == patch.totalSeats.value)
              && (patch.totalSeats.None? ==> after.totalSeats == before.totalSeats)
  {
    match FindOne(db, id)
    case Err(e) => Step(db, Err(e))
    case Ok(event) =>
      var updated := Patched(event, patch);
      Step(db.(events := db.events[id := updated]), Ok(updated))
  }

  /** Does a booking go with the deleted event, directly or through one of its seats? */
  predicate BelongsToEvent(db: Db, b: Booking, id: int)
  {
    b.eventId == id || (b.seatId in db.seats && db.seats[b.seatId].eventId == id)
  }

  /**
   * `remove(id)`: deletes the bookings on the event's seats and the seats
   * (when it has any), then the bookings naming the event, then the event.
   */
  function Remove(db: Db, id: int): (r: Step<string>)
    ensures r.result.Err? ==> r.db == db
    ensures r.result.Err? <==> id !in db.events
    ensures r.result.Err? ==> r.result.error == NotFound(EventNotFoundMessage(id))
    ensures r.result.Ok? ==>
              && r.result.value == EventDeletedMessage(id)
              && r.db.events.Keys == db.events.Keys - {id}
              && (forall e :: e in r.db.events ==> r.db.events[e] == db.events[e])
              && (forall s :: s in r.db.seats <==> s in db.seats && db.seats[s].eventId != id)
              && (forall s :: s in r.db.seats ==> r.db.seats[s] == db.seats[s])
              && (forall b :: b in r.db.bookings <==> b in db.bookings && !BelongsToEvent(db, db.bookings[b], id))
              && (forall b :: b in r.db.bookings ==> r.db.bookings[b] == db.bookings[b])
  {
    match FindOne(db, id)
    case Err(e) => Step(db, Err(e))
    case Ok(_) =>
      var seatIds := set s | s in db.seats && db.seats[s].eventId == id;
      assert forall s :: s in db.seats ==> (s in seatIds <==> db.seats[s].eventId == id);
      var seats' := if seatIds != {} then map s | s in db.seats && s !in seatIds :: db.seats[s] else db.seats;
      var bookings' :=
        if seatIds != {} then map b | b in db.bookings && db.bookings[b].seatId !in seatIds :: db.bookings[b]
        else db.bookings;
      var bookings'' := map b | b in bookings' && bookings'[b].eventId != id :: bookings'[b];
      Step(Db(db.events - {id}, seats', bookings''), Ok(EventDeletedMessage(id)))
  }

  // ------------------------------------------------------ lemmas on create

  /** The preconditions of `Create`, with the foreign key seat → event of the database before. */
  ghost predicate CreatePre(db: Db, dto: CreateEventDto, eventId: int, firstSeatId: int)
  {
    && dto.totalSeats >= 1
    && eventId !in db.events
    && (forall k :: firstSeatId <= k < firstSeatId + dto.totalSeats ==> k !in db.seats)
    && (forall s :: s in db.seats ==> db.seats[s].eventId in db.events)
  }

  /** The seat with id `s` of a new event is the (s - firstSeatId + 1)-th seat built. */
  lemma CreatedSeat(db: Db, dto: CreateEventDto, eventId: int, firstSeatId: int, s: int)
    requires CreatePre(db, dto, eventId, firstSeatId)
    requires firstSeatId <= s < firstSeatId + dto.totalSeats
    ensures s in Create(db, dto, eventId, firstSeatId).0.seats
    ensures Create(db, dto, eventId, firstSeatId).0.seats[s] == NewSeat(eventId, s - firstSeatId + 1)
  {
    var seats := Create(db, dto, eventId, firstSeatId).0.seats;
    assert s !in db.seats;
    assert s in seats && seats[s] == NewSeat(eventId, s - firstSeatId + 1);
  }

  /** A new event owns exactly the seats of its batch, and they are all available. */
  lemma CreateSeatsOfEvent(db: Db, dto: CreateEventDto, eventId: int, firstSeatId: int)
    requires CreatePre(db, dto, eventId, firstSeatId)
    ensures var seats := Create(db, dto, eventId, firstSeatId).0.seats;
            forall s :: s in seats && seats[s].eventId == eventId <==> firstSeatId <= s < firstSeatId + dto.totalSeats
    ensures AvailableSeatIds(Create(db, dto, eventId, firstSeatId).0.seats, eventId)
            == SeatIdRange(firstSeatId, dto.totalSeats)
  {
    var seats := Create(db, dto, eventId, firstSeatId).0.seats;
    forall s | s in seats
      ensures seats[s].eventId == eventId <==> firstSeatId <= s < firstSeatId + dto.totalSeats
      ensures firstSeatId <= s < firstSeatId + dto.totalSeats ==> seats[s].status == Available
    {
      if s in db.seats {
        assert db.seats[s].eventId in db.events;
      } else {
        CreatedSeat(db, dto, eventId, firstSeatId, s);
      }
    }
  }

  /** I1 for a new event: its counter equals the number of its available seats, totalSeats. */
  lemma CreateEstablishesCounter(db: Db, dto: CreateEventDto, eventId: int, firstSeatId: int)
    requires CreatePre(db, dto, eventId, firstSeatId)
    ensures var r := Create(db, dto, eventId, firstSeatId);
            |AvailableSeatIds(r.0.seats, eventId)| == r.0.events[eventId].availableSeats == dto.totalSeats
  {
    CreateSeatsOfEvent(db, dto, eventId, firstSeatId);
  }

  /**
   * The i-th seat of a new event is "General" seat number i in row
   * ceil(i/10), available.
   */
  lemma CreateSeatLabels(db: Db, dto: CreateEventDto, eventId: int, firstSeatId: int, i: int)
    requires CreatePre(db, dto, eventId, firstSeatId)
    requires 1 <= i <= dto.totalSeats
    ensures var seat := Create(db, dto, eventId, firstSeatId).0.seats[firstSeatId + i - 1];
            && seat.eventId == eventId
            && seat.status == Available
            && seat.section == GeneralSection
            && seat.number == Decimal.NatToString(i)
            && seat.row == Decimal.NatToString(RowOf(i))
  {
    var s := firstSeatId + i - 1;
    CreatedSeat(db, dto, eventId, firstSeatId, s);
    assert s - firstSeatId + 1 == i;
    assert Create(db, dto, eventId, firstSeatId).0.seats[s] == NewSeat(eventId, i);
  }

  /** Distinct seats of a new event carry distinct numbers. */
  lemma CreateSeatNumbersDistinct(db: Db, dto: CreateEventDto, eventId: int, firstSeatId: int, s1: int, s2: int)
    requires CreatePre(db, dto, eventId, firstSeatId)
    requires firstSeatId <= s1 < firstSeatId + dto.totalSeats
    requires firstSeatId <= s2 < firstSeatId + dto.totalSeats
    requires s1 != s2
    ensures Create(db, dto, eventId, firstSeatId).0.seats[s1].number
            != Create(db, dto, eventId, firstSeatId).0.seats[s2].number
  {
    var seats := Create(db, dto, eventId, firstSeatId).0.seats;
    CreatedSeat(db, dto, eventId, firstSeatId, s1);
    CreatedSeat(db, dto, eventId, firstSeatId, s2);
    var i, j := s1 - firstSeatId + 1, s2 - firstSeatId + 1;
    assert seats[s1] == NewSeat(eventId, i) && seats[s2] == NewSeat(eventId, j);
    NewSeatNumbersDistinct(eventId, i, j);
  }

  lemma NewSeatNumbersDistinct(eventId: int, i: nat, j: nat)
    requires i != j
    ensures NewSeat(eventId, i).number != NewSeat(eventId, j).number
  {
    Decimal.NatToStringInjective(i, j);
  }

  /** Seats 1–10 are in row 1, seats 11–20 in row 2, and so on. */
  lemma RowLabels(i: nat)
    requires i >= 1
    ensures RowOf(i) >= 1
    ensures RowOf(i) == (i - 1) / SeatsPerRow + 1
  {
  }

  // --------------------------------------------------- lemma on findSeats

  /** Listing an event's available seats gives exactly the seats its counter is meant to count. */
  lemma AvailableListingIsCounted(db: Db, eventId: int)
    requires eventId in db.events
    ensures FindSeats(db, eventId, Some("available")).Ok?
    ensures FindSeats(db, eventId, Some("available")).value.Keys == AvailableSeatIds(db.seats, eventId)
  {
    var listed := FindSeats(db, eventId, Some("available")).value;
    forall s | s in db.seats
      ensures SeatStatusName(db.seats[s].status) == "available" <==> db.seats[s].status == Available
    {
    }
  }
}
