/** Cursor pages over the journal, and the client loop that pulls them: the look-ahead rule
    of the Postgres store (langs/rust/postgres/src/lib.rs), the full-page rule of the
    Supabase transport (langs/dart/lib/src/supabase_transport.dart), and `pullAll`
    (langs/typescript/src/start.mjs). */
module Paging {
  import opened Wrappers
  import opened ReconcileCore
  import opened KeyedStore
  import opened OrderIndependence
  import opened CatchUp

  const MAX_PAGE_SIZE := 1000

  /** What a page claims to carry; `Malformed` is a value that is no change event. */
  datatype Incoming = Change(event: ChangeEvent) | Malformed

  datatype Page = Page(changes: seq<Incoming>, nextCursor: int, hasMore: bool)

  datatype PullError =
    | NegativeCursor | InvalidPageSize | BadSequence
    | InvalidPage | NoProgress | InvalidChange | PageLimit

  // ------------------------------------------------------------------ the server

  function Take<T>(s: seq<T>, n: nat): seq<T> {
    if n < |s| then s[..n] else s
  }

  function Changes(entries: seq<Entry>): seq<Incoming> {
    seq(|entries|, i requires 0 <= i < |entries| => Change(entries[i].event))
  }

  /** The page of `entries`, the journal rows after `cursor` that were kept. */
  function PageOf(entries: seq<Entry>, cursor: int, hasMore: bool): Page {
    Page(Changes(entries), if entries == [] then cursor else entries[|entries| - 1].sequence, hasMore)
  }

  /** `sync_sequence > cursor order by sync_sequence limit n`. */
  function Query(journal: seq<Entry>, cursor: int, limit: nat): seq<Entry> {
    Take(journal[Position(journal, cursor)..], limit)
  }

  /** Look one row ahead to learn whether there is more. */
  function PullLookAhead(journal: seq<Entry>, cursor: int, size: int): Result<Page, PullError> {
    if cursor < 0 then Failure(NegativeCursor)
    else if size < 1 || size > MAX_PAGE_SIZE then Failure(InvalidPageSize)
    else
      var rows := Query(journal, cursor, size + 1);
      Success(PageOf(Take(rows, size), cursor, |rows| > size))
  }

  /** A full page means there may be more. */
  function PullFullPage(journal: seq<Entry>, cursor: int, size: int): Result<Page, PullError> {
    if cursor < 0 then Failure(NegativeCursor)
    else if size < 1 || size > MAX_PAGE_SIZE then Failure(InvalidPageSize)
    else
      var rows := Query(journal, cursor, size);
      Success(PageOf(rows, cursor, |rows| == size))
  }

  /** Each row of a response must advance the cursor. */
  ghost predicate Advances(rows: seq<Entry>, cursor: int) {
    && (rows != [] ==> cursor < rows[0].sequence)
    && forall i, j :: 0 <= i < j < |rows| ==> rows[i].sequence < rows[j].sequence
  }

  /** The transport's decoding loop over the rows of a response: accepted exactly when the
      sequences rise strictly from the cursor. */
  method DecodeFullPage(rows: seq<Entry>, cursor: int, limit: int) returns (page: Result<Page, PullError>)
    ensures page == if cursor < 0 then Failure(NegativeCursor)
                    else if limit < 1 || limit > MAX_PAGE_SIZE then Failure(InvalidPageSize)
                    else if Advances(rows, cursor) then Success(PageOf(rows, cursor, |rows| == limit))
                    else Failure(BadSequence)
  {
    if cursor < 0 { return Failure(NegativeCursor); }
    if limit < 1 || limit > MAX_PAGE_SIZE { return Failure(InvalidPageSize); }
    var changes: seq<Incoming> := [];
    var nextCursor := cursor;
    for i := 0 to |rows|
      invariant changes == Changes(rows[..i])
      invariant nextCursor == if i == 0 then cursor else rows[i - 1].sequence
      invariant Advances(rows[..i], cursor)
    {
      if rows[i].sequence <= nextCursor {
        assert Advances(rows, cursor) ==> false;
        return Failure(BadSequence);
      }
      changes := changes + [Change(rows[i].event)];
      nextCursor := rows[i].sequence;
    }
    assert rows[..|rows|] == rows;
    return Success(Page(changes, nextCursor, |rows| == limit));
  }

  // ---------------------------------------------------------------- the client

  /** The changes of a page up to the first malformed one. */
  function Sound(changes: seq<Incoming>): (events: seq<ChangeEvent>)
    ensures |events| <= |changes|
    ensures |events| < |changes| ==> changes[|events|].Malformed?
    ensures forall i :: 0 <= i < |events| ==> changes[i] == Change(events[i])
  {
    if changes == [] || changes[0].Malformed? then [] else [changes[0].event] + Sound(changes[1..])
  }

  /** The checks a page must pass before any of it is applied. */
  function CheckPage(page: Page, cursor: int): Result<(), PullError> {
    if page.nextCursor < cursor || page.nextCursor > MAX_SAFE then Failure(InvalidPage)
    else if (page.hasMore || page.changes != []) && page.nextCursor == cursor then Failure(NoProgress)
    else Success(())
  }

  /** What a whole pull does: the changes it reconciles, in order, the cursor it saved last, and
      how it ends. */
  datatype Pull = Pull(events: seq<ChangeEvent>, cursor: int, result: Result<(), PullError>)

  /** One turn of `pullAll`: the changes it reconciles, the cursor it leaves saved, and the
      result if it is the last turn. `fetch` answers each cursor with a page, or with None
      when the answer is no page at all. */
  datatype Turn = Turn(events: seq<ChangeEvent>, cursor: int, stop: Option<Result<(), PullError>>)

  function PullTurn(fetch: int -> Option<Page>, cursor: int): Turn {
    if fetch(cursor).None? then Turn([], cursor, Some(Failure(InvalidPage)))
    else
      var page := fetch(cursor).value;
      var check := CheckPage(page, cursor);
      var events := Sound(page.changes);
      if check.Failure? then Turn([], cursor, Some(Failure(check.error)))
      else if |events| < |page.changes| then Turn(events, cursor, Some(Failure(InvalidChange)))
      else Turn(events, page.nextCursor, if page.hasMore then None else Some(Success(())))
  }

  function Turns(fetch: int -> Option<Page>): int -> Turn {
    (cursor: int) => PullTurn(fetch, cursor)
  }

  /** `pullAll` with `pages` turns left. */
  function PullPages(turns: int -> Turn, cursor: int, pages: nat): Pull
    decreases pages, cursor
  {
    if pages == 0 then Pull([], cursor, Failure(PageLimit))
    else
      var turn := turns(cursor);
      if turn.stop.Some? then Pull(turn.events, turn.cursor, turn.stop.value)
      else
        var rest := PullPages(turns, turn.cursor, pages - 1);
        rest.(events := turn.events + rest.events)
  }

  // ------------------------------------------------------------ paging is exact

  datatype Rule = LookAhead | FullPage

  function Fetch(rule: Rule, journal: seq<Entry>, size: int): int -> Option<Page> {
    (cursor: int) =>
      var page := if rule.LookAhead? then PullLookAhead(journal, cursor, size) else PullFullPage(journal, cursor, size);
      if page.Success? then Some(page.value) else None
  }

  function Min(a: nat, b: nat): nat { if a < b then a else b }

  /** Whether the page at position `at` announces another one. */
  predicate More(rule: Rule, journal: seq<Entry>, at: nat, size: int)
    requires at <= |journal|
  {
    if rule.LookAhead? then |journal| - at > size else |journal| - at >= size
  }

  /** The cursor after the entries up to `next`: the old one if there are none. */
  function CursorAfter(journal: seq<Entry>, cursor: int, next: nat): int
    requires next <= |journal|
  {
    if next == Position(journal, cursor) then cursor else CursorAt(journal, next)
  }

  /** The end of the slice after `cursor`. */
  function SliceEnd(journal: seq<Entry>, cursor: int, size: nat): (next: nat)
    ensures Position(journal, cursor) <= next <= |journal|
  {
    Min(|journal|, Position(journal, cursor) + size)
  }

  /** The page after `cursor`: the next slice of the journal. */
  function Slice(rule: Rule, journal: seq<Entry>, size: nat, cursor: int): Page {
    var at, next := Position(journal, cursor), SliceEnd(journal, cursor, size);
    Page(Changes(journal[at..next]), CursorAfter(journal, cursor, next), More(rule, journal, at, size))
  }

  /** The turn after `cursor`: reconcile the slice and save its end. */
  function SliceTurn(rule: Rule, journal: seq<Entry>, size: nat, cursor: int): Turn {
    var at, next := Position(journal, cursor), SliceEnd(journal, cursor, size);
    Turn(Events(journal[at..next]), CursorAfter(journal, cursor, next),
         if More(rule, journal, at, size) then None else Some(Success(())))
  }

  /** From every cursor that can be saved the turns go over the journal slice by slice. */
  ghost predicate Serves(turns: int -> Turn, rule: Rule, journal: seq<Entry>, size: nat) {
    forall cursor {:trigger SliceTurn(rule, journal, size, cursor)} ::
      0 <= cursor <= MAX_SAFE ==> turns(cursor) == SliceTurn(rule, journal, size, cursor)
  }

  /** Dropping the looked-ahead element. */
  lemma TakeLess<T>(s: seq<T>, at: nat, n: nat)
    requires at <= |s|
    ensures Take(Take(s[at..], n + 1), n) == s[at..Min(|s|, at + n)]
    ensures Take(s[at..], n) == s[at..Min(|s|, at + n)]
  {
  }

  lemma TakeCounts<T>(s: seq<T>, at: nat, n: nat)
    requires at <= |s|
    ensures |Take(s[at..], n + 1)| > n <==> |s| - at > n
    ensures |Take(s[at..], n)| == n <==> |s| - at >= n
  {
  }

  lemma {:induction false} PageOfSlice(journal: seq<Entry>, cursor: int, next: nat, hasMore: bool)
    requires Position(journal, cursor) <= next <= |journal|
    ensures PageOf(journal[Position(journal, cursor)..next], cursor, hasMore)
         == Page(Changes(journal[Position(journal, cursor)..next]), CursorAfter(journal, cursor, next), hasMore)
  {
    var at := Position(journal, cursor);
    if at < next {
      assert journal[at..next][next - at - 1] == journal[next - 1];
    }
  }

  lemma LookAheadSlice(journal: seq<Entry>, size: nat, cursor: nat)
    requires 1 <= size <= MAX_PAGE_SIZE
    ensures PullLookAhead(journal, cursor, size) == Success(Slice(LookAhead, journal, size, cursor))
  {
    LookAheadRows(journal, size, cursor);
    PageOfSlice(journal, cursor, SliceEnd(journal, cursor, size),
                More(LookAhead, journal, Position(journal, cursor), size));
  }

  lemma {:induction false} LookAheadRows(journal: seq<Entry>, size: nat, cursor: nat)
    requires 1 <= size <= MAX_PAGE_SIZE
    ensures PullLookAhead(journal, cursor, size)
         == Success(PageOf(journal[Position(journal, cursor)..SliceEnd(journal, cursor, size)], cursor,
                           More(LookAhead, journal, Position(journal, cursor), size)))
  {
    QueriedRows(journal, size, cursor);
  }

  /** What the servers' queries return, cut to a page. */
  lemma {:induction false} QueriedRows(journal: seq<Entry>, size: nat, cursor: nat)
    ensures var rows := journal[Position(journal, cursor)..SliceEnd(journal, cursor, size)];
            && Take(Query(journal, cursor, size + 1), size) == rows && Query(journal, cursor, size) == rows
            && (|Query(journal, cursor, size + 1)| > size
                <==> More(LookAhead, journal, Position(journal, cursor), size))
            && (|Query(journal, cursor, size)| == size
                <==> More(FullPage, journal, Position(journal, cursor), size))
  {
    TakeLess(journal, Position(journal, cursor), size);
    TakeCounts(journal, Position(journal, cursor), size);
  }

  lemma FullPageSlice(journal: seq<Entry>, size: nat, cursor: nat)
    requires 1 <= size <= MAX_PAGE_SIZE
    ensures PullFullPage(journal, cursor, size) == Success(Slice(FullPage, journal, size, cursor))
  {
    FullPageRows(journal, size, cursor);
    PageOfSlice(journal, cursor, SliceEnd(journal, cursor, size),
                More(FullPage, journal, Position(journal, cursor), size));
  }

  lemma {:induction false} FullPageRows(journal: seq<Entry>, size: nat, cursor: nat)
    requires 1 <= size <= MAX_PAGE_SIZE
    ensures PullFullPage(journal, cursor, size)
         == Success(PageOf(journal[Position(journal, cursor)..SliceEnd(journal, cursor, size)], cursor,
                           More(FullPage, journal, Position(journal, cursor), size)))
  {
    QueriedRows(journal, size, cursor);
  }

  /** A server refuses a negative cursor and a page size outside 1 to 1000, and nothing else. */
  lemma RefusedPages(journal: seq<Entry>, cursor: int, size: int)
    ensures var ahead, full := PullLookAhead(journal, cursor, size), PullFullPage(journal, cursor, size);
            if cursor < 0 then ahead == full == Failure(NegativeCursor)
            else if size < 1 || 1000 < size then ahead == full == Failure(InvalidPageSize)
            else ahead.Success? && full.Success?
  {
  }

  /** Both servers answer a cursor with the next slice of the journal. */
  lemma FetchedSlice(rule: Rule, journal: seq<Entry>, size: nat, cursor: nat)
    requires 1 <= size <= MAX_PAGE_SIZE
    ensures Fetch(rule, journal, size)(cursor) == Some(Slice(rule, journal, size, cursor))
  {
    if rule.LookAhead? {
      LookAheadSlice(journal, size, cursor);
    } else {
      FullPageSlice(journal, size, cursor);
    }
  }

  /** A page that brings changes moves the cursor strictly forward, so none is refused. */
  lemma SlicePasses(rule: Rule, journal: seq<Entry>, size: nat, cursor: nat)
    requires Ascending(journal) && 1 <= size && cursor <= MAX_SAFE
    ensures CheckPage(Slice(rule, journal, size, cursor), cursor).Success?
    ensures Slice(rule, journal, size, cursor).changes != [] ==>
              cursor < Slice(rule, journal, size, cursor).nextCursor
  {
    var at, next := Position(journal, cursor), SliceEnd(journal, cursor, size);
    if at < next {
      assert cursor < journal[at].sequence <= journal[next - 1].sequence;
    }
  }

  lemma {:induction false} SoundSlice(entries: seq<Entry>)
    ensures Sound(Changes(entries)) == Events(entries)
    decreases |entries|
  {
    if entries != [] {
      assert Changes(entries)[1..] == Changes(entries[1..]);
      assert Events(entries)[1..] == Events(entries[1..]);
      SoundSlice(entries[1..]);
    }
  }

  /** Against either server, every turn reconciles the next slice of the journal, and moves
      the cursor strictly forward if there is anything in it. */
  lemma ServersServe(rule: Rule, journal: seq<Entry>, size: nat)
    requires Ascending(journal) && 1 <= size <= MAX_PAGE_SIZE
    ensures Serves(Turns(Fetch(rule, journal, size)), rule, journal, size)
    ensures forall cursor :: 0 <= cursor <= MAX_SAFE ==>
              var turn := Turns(Fetch(rule, journal, size))(cursor);
              if turn.events == [] then turn.cursor == cursor else cursor < turn.cursor
  {
    forall cursor | 0 <= cursor <= MAX_SAFE
      ensures Turns(Fetch(rule, journal, size))(cursor) == SliceTurn(rule, journal, size, cursor)
      ensures var turn := SliceTurn(rule, journal, size, cursor);
              if turn.events == [] then turn.cursor == cursor else cursor < turn.cursor
    {
      FetchedSlice(rule, journal, size, cursor);
      SlicePasses(rule, journal, size, cursor);
      SoundSlice(journal[Position(journal, cursor)..SliceEnd(journal, cursor, size)]);
    }
  }

  /** How many entries `pages` full pages carry. */
  function Capacity(pages: nat, size: nat): nat {
    if pages == 0 then 0 else size + Capacity(pages - 1, size)
  }

  lemma {:induction false} CapacityIsProduct(pages: nat, size: nat)
    ensures Capacity(pages, size) == pages * size
  {
    if pages != 0 {
      CapacityIsProduct(pages - 1, size);
    }
  }

  /** Where the loop stands after fetching pages for `span` entries from position `at`. */
  function Reached(journal: seq<Entry>, at: nat, span: nat): nat
    requires at <= |journal|
  {
    Min(|journal|, at + span)
  }

  /** Whether pages for `span` entries include the last page: the look-ahead rule needs one
      page per started block, the full-page rule one more after a full block. */
  predicate Enough(rule: Rule, journal: seq<Entry>, at: nat, span: nat)
    requires at <= |journal|
  {
    0 < span && if rule.LookAhead? then |journal| - at <= span else |journal| - at < span
  }

  lemma EventsJoin(journal: seq<Entry>, at: nat, next: nat, reached: nat)
    requires at <= next <= reached <= |journal|
    ensures Events(journal[at..next]) + Events(journal[next..reached]) == Events(journal[at..reached])
  {
  }

  lemma MoreTurn(rule: Rule, journal: seq<Entry>, size: nat, turns: int -> Turn, at: nat)
    requires Ascending(journal) && 1 <= size && at + size <= |journal|
    requires Serves(turns, rule, journal, size) && More(rule, journal, at, size)
    ensures turns(CursorAt(journal, at)) == Turn(Events(journal[at..at + size]), CursorAt(journal, at + size), None)
  {
    PositionOfCursor(journal, at);
    assert turns(CursorAt(journal, at)) == SliceTurn(rule, journal, size, CursorAt(journal, at));
  }

  lemma LastTurn(rule: Rule, journal: seq<Entry>, size: nat, turns: int -> Turn, at: nat)
    requires Ascending(journal) && 1 <= size && at <= |journal|
    requires Serves(turns, rule, journal, size) && !More(rule, journal, at, size)
    ensures turns(CursorAt(journal, at))
         == Turn(Events(journal[at..|journal|]), CursorAt(journal, |journal|), Some(Success(())))
  {
    PositionOfCursor(journal, at);
    assert turns(CursorAt(journal, at)) == SliceTurn(rule, journal, size, CursorAt(journal, at));
  }

  /** The first page in front of what the rest of the loop does. */
  lemma {:induction false} PullMore(rule: Rule, journal: seq<Entry>, size: nat, turns: int -> Turn, at: nat, pages: nat,
                                    reached: nat, cursor: int, result: Result<(), PullError>)
    requires Ascending(journal) && 1 <= size && at + size <= reached <= |journal| && 0 < pages
    requires Serves(turns, rule, journal, size) && More(rule, journal, at, size)
    requires PullPages(turns, CursorAt(journal, at + size), pages - 1)
          == Pull(Events(journal[at + size..reached]), cursor, result)
    ensures PullPages(turns, CursorAt(journal, at), pages) == Pull(Events(journal[at..reached]), cursor, result)
  {
    MoreTurn(rule, journal, size, turns, at);
    EventsJoin(journal, at, at + size, reached);
  }

  /** The last page. */
  lemma {:induction false} PullLast(rule: Rule, journal: seq<Entry>, size: nat, turns: int -> Turn, at: nat, pages: nat)
    requires Ascending(journal) && 1 <= size && at <= |journal| && 0 < pages
    requires Serves(turns, rule, journal, size) && !More(rule, journal, at, size)
    ensures PullPages(turns, CursorAt(journal, at), pages)
         == Pull(Events(journal[at..|journal|]), CursorAt(journal, |journal|), Success(()))
  {
    LastTurn(rule, journal, size, turns, at);
  }

  /** The end of a pull with `span` entries worth of pages. */
  function Ended(rule: Rule, journal: seq<Entry>, at: nat, span: nat): Result<(), PullError>
    requires at <= |journal|
  {
    if Enough(rule, journal, at, span) then Success(()) else Failure(PageLimit)
  }

  /** The end is the same seen from the next page. */
  lemma EndFromNext(rule: Rule, journal: seq<Entry>, at: nat, size: nat, span: nat)
    requires at <= |journal| && 1 <= size <= span && More(rule, journal, at, size)
    ensures at + size <= |journal| && at + size <= Reached(journal, at, span)
    ensures Reached(journal, at + size, span - size) == Reached(journal, at, span)
    ensures Ended(rule, journal, at + size, span - size) == Ended(rule, journal, at, span)
  {
  }

  lemma EndAtLast(rule: Rule, journal: seq<Entry>, at: nat, size: nat, span: nat)
    requires at <= |journal| && 1 <= size <= span && !More(rule, journal, at, size)
    ensures Reached(journal, at, span) == |journal| && Ended(rule, journal, at, span) == Success(())
  {
  }

  /** A pull from position `at` whose pages carry up to `span` entries does just that. */
  ghost predicate Spans(rule: Rule, journal: seq<Entry>, turns: int -> Turn, at: nat, pages: nat, span: nat)
    requires at <= |journal|
  {
    var reached := Reached(journal, at, span);
    PullPages(turns, CursorAt(journal, at), pages)
    == Pull(Events(journal[at..reached]), CursorAt(journal, reached), Ended(rule, journal, at, span))
  }

  lemma SpansNothing(rule: Rule, journal: seq<Entry>, turns: int -> Turn, at: nat)
    requires at <= |journal|
    ensures Spans(rule, journal, turns, at, 0, 0)
  {
  }

  lemma {:induction false} SpansMore(rule: Rule, journal: seq<Entry>, size: nat, turns: int -> Turn,
                                     at: nat, pages: nat, span: nat)
    requires Ascending(journal) && 1 <= size <= span && at + size <= |journal| && 0 < pages
    requires Serves(turns, rule, journal, size) && More(rule, journal, at, size)
    requires Spans(rule, journal, turns, at + size, pages - 1, span - size)
    ensures Spans(rule, journal, turns, at, pages, span)
  {
    EndFromNext(rule, journal, at, size, span);
    var reached := Reached(journal, at, span);
    PullMore(rule, journal, size, turns, at, pages, reached, CursorAt(journal, reached),
             Ended(rule, journal, at, span));
  }

  lemma {:induction false} SpansLast(rule: Rule, journal: seq<Entry>, size: nat, turns: int -> Turn,
                                     at: nat, pages: nat, span: nat)
    requires Ascending(journal) && 1 <= size <= span && at <= |journal| && 0 < pages
    requires Serves(turns, rule, journal, size) && !More(rule, journal, at, size)
    ensures Spans(rule, journal, turns, at, pages, span)
  {
    EndAtLast(rule, journal, at, size, span);
    PullLast(rule, journal, size, turns, at, pages);
  }

  /** One page more in front, or the last page alone. */
  lemma {:induction false} SpansStep(rule: Rule, journal: seq<Entry>, size: nat, turns: int -> Turn,
                                     at: nat, pages: nat, span: nat)
    requires Ascending(journal) && 1 <= size <= span && at <= |journal| && Serves(turns, rule, journal, size)
    requires 0 < pages
    requires More(rule, journal, at, size) ==>
               at + size <= |journal| && Spans(rule, journal, turns, at + size, pages - 1, span - size)
    ensures Spans(rule, journal, turns, at, pages, span)
  {
    if More(rule, journal, at, size) {
      SpansMore(rule, journal, size, turns, at, pages, span);
    } else {
      SpansLast(rule, journal, size, turns, at, pages, span);
    }
  }

  lemma {:induction false} MoreFits(rule: Rule, journal: seq<Entry>, at: nat, size: nat, pages: nat)
    requires at <= |journal| && 1 <= size && 0 < pages
    ensures More(rule, journal, at, size) ==> at + size <= |journal|
    ensures Capacity(pages, size) == size + Capacity(pages - 1, size)
  {
  }

  lemma {:induction false} PullSpan(rule: Rule, journal: seq<Entry>, size: nat, turns: int -> Turn,
                                    at: nat, pages: nat, span: nat)
    requires Ascending(journal) && 1 <= size && at <= |journal| && Serves(turns, rule, journal, size)
    requires span == Capacity(pages, size)
    ensures Spans(rule, journal, turns, at, pages, span)
    decreases pages
  {
    if pages == 0 {
      SpansNothing(rule, journal, turns, at);
    } else {
      MoreFits(rule, journal, at, size, pages);
      if More(rule, journal, at, size) {
        PullSpan(rule, journal, size, turns, at + size, pages - 1, span - size);
      }
      SpansStep(rule, journal, size, turns, at, pages, span);
    }
  }

  /** Two cursors with the same first turn, up to where it ends if it is the last. */
  lemma {:induction false} SameFirstTurn(turns: int -> Turn, cursor: int, cursor': int, pages: nat)
    requires 0 < pages
    requires turns(cursor) == turns(cursor').(cursor := turns(cursor).cursor)
    requires turns(cursor).stop.None? ==> turns(cursor) == turns(cursor')
    ensures var pull := PullPages(turns, cursor', pages);
            PullPages(turns, cursor, pages) == pull.(cursor := if turns(cursor).stop.None? then pull.cursor
                                                               else turns(cursor).cursor)
  {
  }

  lemma {:induction false} SameSlice(rule: Rule, journal: seq<Entry>, size: nat, cursor: int, cursor': int)
    requires 1 <= size && Position(journal, cursor) == Position(journal, cursor')
    requires cursor' == CursorAt(journal, Position(journal, cursor))
    ensures var at := Position(journal, cursor);
            var turn, turn' := SliceTurn(rule, journal, size, cursor), SliceTurn(rule, journal, size, cursor');
            && turn == turn'.(cursor := turn.cursor)
            && (turn.stop.None? <==> More(rule, journal, at, size))
            && (turn.stop.None? ==> turn == turn')
            && (turn.stop.Some? ==> turn.cursor == CursorAfter(journal, cursor, |journal|))
  {
  }

  lemma {:induction false} FirstTurn(rule: Rule, journal: seq<Entry>, size: nat, turns: int -> Turn, cursor: nat,
                                     cursor': int)
    requires Ascending(journal) && 1 <= size && cursor <= MAX_SAFE && Serves(turns, rule, journal, size)
    requires cursor' == CursorAt(journal, Position(journal, cursor))
    ensures turns(cursor) == SliceTurn(rule, journal, size, cursor)
    ensures turns(cursor') == SliceTurn(rule, journal, size, cursor')
    ensures Position(journal, cursor') == Position(journal, cursor)
  {
    PositionOfCursor(journal, Position(journal, cursor));
  }

  /** Any cursor serves as the one of the entry before it does, but is kept as it is while
      nothing follows. */
  lemma {:induction false} PullFromCursor(rule: Rule, journal: seq<Entry>, size: nat, turns: int -> Turn,
                                          cursor: nat, pages: nat, span: nat)
    requires Ascending(journal) && 1 <= size && cursor <= MAX_SAFE && Serves(turns, rule, journal, size)
    requires span == Capacity(pages, size)
    ensures var at := Position(journal, cursor);
            PullPages(turns, cursor, pages)
            == Pull(Events(journal[at..Reached(journal, at, span)]),
                    CursorAfter(journal, cursor, Reached(journal, at, span)), Ended(rule, journal, at, span))
  {
    var at := Position(journal, cursor);
    PullSpan(rule, journal, size, turns, at, pages, span);
    if pages > 0 {
      FirstTurn(rule, journal, size, turns, cursor, CursorAt(journal, at));
      SameSlice(rule, journal, size, cursor, CursorAt(journal, at));
      SameFirstTurn(turns, cursor, CursorAt(journal, at), pages);
      if More(rule, journal, at, size) {
        EndFromNext(rule, journal, at, size, span);
      } else {
        EndAtLast(rule, journal, at, size, span);
      }
    }
  }

  // ---------------------------------------------------------------- how many pages

  /** The pages it takes to learn that `n` entries are all: the look-ahead rule needs a page
      for each started block and at least one, the full-page rule one more after a full block. */
  function PagesNeeded(rule: Rule, n: nat, size: nat): nat
    requires 0 < size
  {
    if rule.FullPage? then n / size + 1 else if n == 0 then 1 else CeilDiv(n, size)
  }

  function CeilDiv(n: nat, size: nat): nat
    requires 0 < size
  {
    (n + size - 1) / size
  }

  lemma Times(a: nat, b: nat, size: nat)
    requires a <= b
    ensures a * size <= b * size
  {
  }

  lemma CeilCovers(n: nat, size: nat, pages: nat)
    requires 0 < size
    ensures n <= pages * size <==> CeilDiv(n, size) <= pages
  {
    var q := CeilDiv(n, size);
    assert q * size <= n + size - 1 < q * size + size;
    if q <= pages {
      Times(q, pages, size);
    } else {
      Times(pages + 1, q, size);
      assert (pages + 1) * size == pages * size + size;
    }
  }

  lemma FloorCovers(n: nat, size: nat, pages: nat)
    requires 0 < size
    ensures n < pages * size <==> n / size + 1 <= pages
  {
    var q := n / size;
    assert q * size <= n < q * size + size;
    if q + 1 <= pages {
      Times(q + 1, pages, size);
      assert (q + 1) * size == q * size + size;
    } else {
      Times(pages, q, size);
    }
  }

  lemma EnoughPages(rule: Rule, journal: seq<Entry>, at: nat, size: nat, pages: nat)
    requires at <= |journal| && 0 < size
    ensures Enough(rule, journal, at, pages * size) <==> PagesNeeded(rule, |journal| - at, size) <= pages
    ensures PagesNeeded(rule, |journal| - at, size) <= CeilDiv(|journal| - at, size) + 1
    ensures Enough(rule, journal, at, pages * size) ==> Reached(journal, at, pages * size) == |journal|
  {
    var n := |journal| - at;
    CeilCovers(n, size, pages);
    FloorCovers(n, size, pages);
    FloorCovers(n, size, CeilDiv(n, size) + 1);
    CeilCovers(n, size, CeilDiv(n, size));
    assert (CeilDiv(n, size) + 1) * size == CeilDiv(n, size) * size + size;
    if pages > 0 {
      Times(1, pages, size);
    }
  }

  /** From any cursor the loop visits every later entry exactly once and in order, as far as
      its pages reach, and saves the cursor of the last one. It succeeds exactly when the page
      limit suffices, which ceil(n / size) + 1 pages always do, and otherwise stops on it. */
  lemma {:induction false} PullIsExact(rule: Rule, journal: seq<Entry>, size: nat, turns: int -> Turn,
                                       cursor: nat, pages: nat)
    requires Ascending(journal) && 1 <= size && cursor <= MAX_SAFE && Serves(turns, rule, journal, size)
    ensures var at := Position(journal, cursor);
            var n := |journal| - at;
            var reached := Reached(journal, at, pages * size);
            && PullPages(turns, cursor, pages)
               == Pull(Events(journal[at..reached]), CursorAfter(journal, cursor, reached),
                       if PagesNeeded(rule, n, size) <= pages then Success(()) else Failure(PageLimit))
            && PagesNeeded(rule, n, size) <= CeilDiv(n, size) + 1
            && (PagesNeeded(rule, n, size) <= pages ==> reached == |journal|)
  {
    var at := Position(journal, cursor);
    EnoughPages(rule, journal, at, size, pages);
    PullOfPages(rule, journal, size, turns, cursor, pages, PagesNeeded(rule, |journal| - at, size) <= pages);
  }

  lemma {:induction false} PullOfPages(rule: Rule, journal: seq<Entry>, size: nat, turns: int -> Turn, cursor: nat,
                                       pages: nat, enough: bool)
    requires Ascending(journal) && 1 <= size && cursor <= MAX_SAFE && Serves(turns, rule, journal, size)
    requires enough <==> Enough(rule, journal, Position(journal, cursor), pages * size)
    ensures var at := Position(journal, cursor);
            var reached := Reached(journal, at, pages * size);
            PullPages(turns, cursor, pages)
            == Pull(Events(journal[at..reached]), CursorAfter(journal, cursor, reached),
                    if enough then Success(()) else Failure(PageLimit))
  {
    CapacityIsProduct(pages, size);
    PullOfSpan(rule, journal, size, turns, cursor, pages, pages * size, enough);
  }

  lemma {:induction false} PullOfSpan(rule: Rule, journal: seq<Entry>, size: nat, turns: int -> Turn, cursor: nat,
                                      pages: nat, span: nat, enough: bool)
    requires Ascending(journal) && 1 <= size && cursor <= MAX_SAFE && Serves(turns, rule, journal, size)
    requires span == Capacity(pages, size) && (enough <==> Enough(rule, journal, Position(journal, cursor), span))
    ensures var at := Position(journal, cursor);
            PullPages(turns, cursor, pages)
            == Pull(Events(journal[at..Reached(journal, at, span)]),
                    CursorAfter(journal, cursor, Reached(journal, at, span)),
                    if enough then Success(()) else Failure(PageLimit))
  {
    PullFromCursor(rule, journal, size, turns, cursor, pages, span);
  }

  /** What a crash left behind is the journal's own rows at or after the saved cursor. */
  lemma {:induction false} SavedMatches(journal: seq<Entry>, start: Replica, scope: string, moves: seq<Move>, p: Puller)
    requires Settled(start) && scope !in start.cursors && Ascending(journal) && VersionsRise(journal, start)
    requires Runs(journal, scope, Puller(start, 0), moves, p)
    ensures Settled(p.store)
    ensures GetCursor(p.store, scope) == CursorAt(journal, SavedAt(journal, scope, p.store))
    ensures forall k :: Matches(start, journal, p.store, k, SavedAt(journal, scope, p.store))
  {
    ReachableInv(start, journal, scope, moves, p);
    forall k ensures Matches(start, journal, p.store, k, SavedAt(journal, scope, p.store)) {
      assert Matches(start, journal, p.store, k, p.at);
      MatchesEarlier(start, journal, p.store, k, p.at, SavedAt(journal, scope, p.store));
    }
  }

  /** A pull from the cursor of a journal position: all the rest, if the page limit suffices. */
  lemma {:induction false} PullFrom(rule: Rule, journal: seq<Entry>, size: nat, turns: int -> Turn, at: nat, pages: nat)
    requires Ascending(journal) && 1 <= size && at <= |journal| && Serves(turns, rule, journal, size)
    ensures var pull := PullPages(turns, CursorAt(journal, at), pages);
            if PagesNeeded(rule, |journal| - at, size) <= pages
            then pull == Pull(Events(journal[at..]), CursorAt(journal, |journal|), Success(()))
            else pull.result == Failure(PageLimit)
  {
    CapacityIsProduct(pages, size);
    EnoughPages(rule, journal, at, size, pages);
    PullSpan(rule, journal, size, turns, at, pages, pages * size);
    assert journal[at..|journal|] == journal[at..];
  }

  /** A pull from whatever a crash left behind succeeds exactly when the page limit suffices,
      and then gives the rows of one uninterrupted pass over the whole journal. */
  lemma {:induction false} RestartedPullCompletes(rule: Rule, journal: seq<Entry>, size: nat, turns: int -> Turn,
                                                  start: Replica, scope: string, moves: seq<Move>, p: Puller,
                                                  pages: nat)
    requires Settled(start) && scope !in start.cursors && Ascending(journal) && VersionsRise(journal, start)
    requires Runs(journal, scope, Puller(start, 0), moves, p)
    requires 1 <= size && Serves(turns, rule, journal, size)
    ensures var saved := SavedAt(journal, scope, p.store);
            var pull := PullPages(turns, GetCursor(p.store, scope), pages);
            && pull.result == (if PagesNeeded(rule, |journal| - saved, size) <= pages then Success(())
                               else Failure(PageLimit))
            && (pull.result.Success? ==>
                  && pull.cursor == CursorAt(journal, |journal|)
                  && DeliverAll(p.store, pull.events).rows == DeliverAll(start, Events(journal)).rows)
  {
    var saved := SavedAt(journal, scope, p.store);
    RestIsOnePass(journal, start, scope, moves, p);
    PullFrom(rule, journal, size, turns, saved, pages);
  }

  /** Reconciling the rest of the journal from the saved cursor is one pass over all of it. */
  lemma {:induction false} RestIsOnePass(journal: seq<Entry>, start: Replica, scope: string, moves: seq<Move>,
                                         p: Puller)
    requires Settled(start) && scope !in start.cursors && Ascending(journal) && VersionsRise(journal, start)
    requires Runs(journal, scope, Puller(start, 0), moves, p)
    ensures var saved := SavedAt(journal, scope, p.store);
            && GetCursor(p.store, scope) == CursorAt(journal, saved)
            && DeliverAll(p.store, Events(journal[saved..])).rows == DeliverAll(start, Events(journal)).rows
  {
    SavedMatches(journal, start, scope, moves, p);
    ResumedIsOnePass(start, journal, p.store, SavedAt(journal, scope, p.store));
  }
}
