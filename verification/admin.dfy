/** The filtered audit listing: a bounded scan over pages that can be resumed from its cursor. */
module Admin {
  import opened Text

  const AUDIT_SCAN_PAGES: nat := 8

  /** One page of entries and the cursor after it, "" at the end. */
  datatype Page<+E> = Page(entries: seq<E>, next: string)

  type Lister<!E> = string -> Result<Page<E>, string>

  /** limit is the row limit, 0 or less for none; room is how many rows the writer takes before it fails,
      None for a writer that never fails.
   */
  datatype Listing<!E> = Listing(list: Lister<E>, active: bool, matches: E -> bool, limit: int, room: Option<nat>)

  datatype Failure = ListFailed(why: string) | WriteFailed

  /** Where a scan stands: the rows written, the next cursor, and how many entries and pages it has read. */
  datatype Scan<+E> = Scan(rows: seq<E>, next: string, scanned: nat, pages: nat, failure: Option<Failure>)

  function ScanDone(active: bool, written: nat, limit: int, next: string): bool {
    if !active then true
    else if next == "" then true
    else limit > 0 && written >= limit
  }

  /** The rows after writing what matches of the entries, and whether the writer failed on the way. */
  function Written<E>(q: Listing<E>, rows: seq<E>, entries: seq<E>): (seq<E>, bool) {
    if |entries| == 0 then (rows, false)
    else
      var (sofar, failed) := Written(q, rows, entries[..|entries| - 1]);
      var e := entries[|entries| - 1];
      if failed then (sofar, true)
      else if !q.matches(e) then (sofar, false)
      else if q.room.Some? && |sofar| >= q.room.value then (sofar, true)
      else (sofar + [e], false)
  }

  /** Reads one more page and writes what matches. */
  function PageRead<E>(q: Listing<E>, s: Scan<E>): Scan<E> {
    match q.list(s.next)
    case Err(why) => s.(failure := Some(ListFailed(why)), pages := s.pages + 1)
    case Ok(page) =>
      var (rows, failed) := Written(q, s.rows, page.entries);
      var read := s.(rows := rows, scanned := s.scanned + |page.entries|, pages := s.pages + 1);
      if failed then read.(failure := Some(WriteFailed)) else read.(next := page.next)
  }

  /** The scan that reads on from s. */
  function ScanOn<E>(q: Listing<E>, s: Scan<E>): Scan<E>
    decreases AUDIT_SCAN_PAGES - s.pages
  {
    if s.pages >= AUDIT_SCAN_PAGES then s
    else
      var r := PageRead(q, s);
      if r.failure.Some? || ScanDone(q.active, |r.rows|, q.limit, r.next) then r else ScanOn(q, r)
  }

  function Start<E>(cursor: string): Scan<E> {
    Scan([], cursor, 0, 0, None)
  }

  /** Writes one page's matching entries in turn. */
  method WritePage<E>(q: Listing<E>, before: seq<E>, entries: seq<E>) returns (rows: seq<E>, failed: bool)
    ensures (rows, failed) == Written(q, before, entries)
  {
    rows := before;
    var i := 0;
    while i < |entries|
      invariant 0 <= i <= |entries|
      invariant (rows, false) == Written(q, before, entries[..i])
    {
      assert entries[..i + 1][..i] == entries[..i];
      if q.matches(entries[i]) {
        if q.room.Some? && |rows| >= q.room.value {
          FailureStays(q, before, entries, i + 1);
          return rows, true;
        }
        rows := rows + [entries[i]];
      }
      i := i + 1;
    }
    assert entries[..i] == entries;
    failed := false;
  }

  lemma {:induction false} FailureStays<E>(q: Listing<E>, rows: seq<E>, entries: seq<E>, i: nat)
    requires i <= |entries| && Written(q, rows, entries[..i]).1
    ensures Written(q, rows, entries) == Written(q, rows, entries[..i])
  {
    if i < |entries| {
      assert entries[..|entries| - 1][..i] == entries[..i];
      FailureStays(q, rows, entries[..|entries| - 1], i);
    } else {
      assert entries[..i] == entries;
    }
  }

  lemma ScanStep<E>(q: Listing<E>, s: Scan<E>, r: Scan<E>)
    requires s.pages < AUDIT_SCAN_PAGES && r == PageRead(q, s)
    ensures ScanOn(q, s)
         == if r.failure.Some? || ScanDone(q.active, |r.rows|, q.limit, r.next) then r else ScanOn(q, r)
  {
  }

  /** Reads one more page and writes what matches of it. */
  method ReadPage<E>(q: Listing<E>, s: Scan<E>) returns (r: Scan<E>)
    requires s.failure.None?
    ensures r == PageRead(q, s)
  {
    var answer := q.list(s.next);
    if answer.Err? {
      return s.(failure := Some(ListFailed(answer.error)), pages := s.pages + 1);
    }
    var entries, after := answer.value.entries, answer.value.next;
    var rows, failed := WritePage(q, s.rows, entries);
    r := s.(rows := rows, scanned := s.scanned + |entries|, pages := s.pages + 1);
    if failed {
      return r.(failure := Some(WriteFailed));
    }
    r := r.(next := after);
  }

  /** One listing: pages are read and their matching rows written until the scan is done. */
  method StreamAudit<E>(q: Listing<E>, cursor: string) returns (s: Scan<E>)
    ensures s == ScanOn(q, Start(cursor))
  {
    s := Start(cursor);
    while s.pages < AUDIT_SCAN_PAGES
      invariant s.failure.None?
      invariant ScanOn(q, s) == ScanOn(q, Start(cursor))
      decreases AUDIT_SCAN_PAGES - s.pages
    {
      var r := ReadPage(q, s);
      ScanStep(q, s, r);
      s := r;
      if s.failure.Some? || ScanDone(q.active, |s.rows|, q.limit, s.next) {
        break;
      }
    }
  }

  // ---------- one scan ----------

  function Filter<E>(matches: E -> bool, entries: seq<E>): seq<E> {
    if |entries| == 0 then []
    else
      var front, last := Filter(matches, entries[..|entries| - 1]), entries[|entries| - 1];
      if matches(last) then front + [last] else front
  }

  lemma {:induction false} FilterAppend<E>(matches: E -> bool, a: seq<E>, b: seq<E>)
    ensures Filter(matches, a + b) == Filter(matches, a) + Filter(matches, b)
  {
    if |b| == 0 {
      assert a + b == a;
    } else {
      FilterAppend(matches, a, b[..|b| - 1]);
      assert (a + b)[..|a + b| - 1] == a + b[..|b| - 1];
    }
  }

  /** A filter keeps every entry that matches as often as it is there, and no other. */
  lemma {:induction false} FilterIs<E>(matches: E -> bool, entries: seq<E>, e: E)
    ensures multiset(Filter(matches, entries))[e] == if matches(e) then multiset(entries)[e] else 0
  {
    if |entries| > 0 {
      FilterIs(matches, entries[..|entries| - 1], e);
      assert entries == entries[..|entries| - 1] + [entries[|entries| - 1]];
    }
  }

  lemma {:induction false} WrittenIs<E>(q: Listing<E>, rows: seq<E>, entries: seq<E>)
    ensures var (r, failed) := Written(q, rows, entries);
            && r <= rows + Filter(q.matches, entries)
            && (!failed ==> r == rows + Filter(q.matches, entries))
            && (q.room.None? ==> !failed)
            && (failed ==> |r| >= q.room.value && |r| < |rows + Filter(q.matches, entries)|)
            && (q.room.Some? && |rows| <= q.room.value ==> |r| <= q.room.value)
  {
    if |entries| > 0 {
      WrittenIs(q, rows, entries[..|entries| - 1]);
    }
  }

  /** A scan makes at most eight list calls, and exactly one when no filter is active; it stops with more to
      come only when it was not filtering, had filled the limit, or had read eight pages.
   */
  lemma {:induction false} ScanBounded<E>(q: Listing<E>, s: Scan<E>)
    requires s.failure.None? && s.pages < 8
    ensures var r := ScanOn(q, s);
            && s.pages < r.pages <= 8
            && (!q.active ==> r.pages == s.pages + 1)
            && (r.failure.None? && r.next != "" ==>
                  !q.active || (q.limit > 0 && |r.rows| >= q.limit) || r.pages == 8)
    decreases AUDIT_SCAN_PAGES - s.pages
  {
    var r := PageRead(q, s);
    if r.failure.None? && !ScanDone(q.active, |r.rows|, q.limit, r.next) && r.pages < AUDIT_SCAN_PAGES {
      ScanBounded(q, r);
    }
  }

  ghost predicate PagesWithin<E>(list: Lister<E>, n: nat) {
    forall c | list(c).Ok? :: |list(c).value.entries| <= n
  }

  lemma {:induction false} FilterShorter<E>(matches: E -> bool, entries: seq<E>)
    ensures |Filter(matches, entries)| <= |entries|
  {
    if |entries| > 0 {
      FilterShorter(matches, entries[..|entries| - 1]);
    }
  }

  /** A page is read only while the limit is not filled, so the rows stay below the limit and one page. */
  lemma {:induction false} OvershootBounded<E>(q: Listing<E>, s: Scan<E>, n: nat)
    requires q.limit > 0 && |s.rows| < q.limit && PagesWithin(q.list, n)
    ensures |ScanOn(q, s).rows| < q.limit + n
    decreases AUDIT_SCAN_PAGES - s.pages
  {
    if s.pages < AUDIT_SCAN_PAGES {
      var r := PageRead(q, s);
      if q.list(s.next).Ok? {
        WrittenIs(q, s.rows, q.list(s.next).value.entries);
        FilterShorter(q.matches, q.list(s.next).value.entries);
      }
      if r.failure.None? && !ScanDone(q.active, |r.rows|, q.limit, r.next) {
        OvershootBounded(q, r, n);
      }
    }
  }

  // ---------- scans over a log ----------

  /** Where each cursor stands in the log, and which cursors the listing hands out. */
  datatype Places = Places(at: string -> nat, given: string -> bool)

  /** The listing pages through a fixed log: a page is the entries from its cursor's place on, its own cursor
      stands right behind them, and "" behind the last one.
   */
  ghost predicate Serves<E>(list: Lister<E>, log: seq<E>, p: Places) {
    && p.given("") && p.at("") == 0
    && forall c | p.given(c) :: p.at(c) <= |log| && (list(c).Ok? ==> PageOf(list(c).value, log, p, c))
  }

  ghost predicate PageOf<E>(page: Page<E>, log: seq<E>, p: Places, c: string) {
    var end := p.at(c) + |page.entries|;
    && end <= |log| && page.entries == log[p.at(c)..end]
    && if page.next == "" then end == |log| else p.given(page.next) && p.at(page.next) == end && p.at(c) < end
  }

  /** The place a scan stopped at: "" as the next cursor means the end. */
  ghost function Behind<E>(log: seq<E>, p: Places, next: string): nat {
    if next == "" then |log| else p.at(next)
  }

  /** From s to r a scan emitted, in order, the filter of exactly the stretch of the log between their
      cursors; if it failed, a part of the filter of the rest.
   */
  ghost predicate Emits<E>(q: Listing<E>, log: seq<E>, p: Places, s: Scan<E>, r: Scan<E>)
    requires p.at(s.next) <= |log|
  {
    var a := p.at(s.next);
    && r.rows <= s.rows + Filter(q.matches, log[a..])
    && (r.failure.None? ==>
          && p.given(r.next) && a <= Behind(log, p, r.next) <= |log| && (r.next != "" ==> a < p.at(r.next))
          && r.scanned - s.scanned == Behind(log, p, r.next) - a
          && r.rows == s.rows + Filter(q.matches, log[a..Behind(log, p, r.next)]))
  }

  lemma PageEmits<E>(q: Listing<E>, log: seq<E>, p: Places, s: Scan<E>)
    requires Serves(q.list, log, p) && p.given(s.next) && s.failure.None?
    ensures Emits(q, log, p, s, PageRead(q, s))
  {
    if q.list(s.next).Ok? {
      var page := q.list(s.next).value;
      assert PageOf(page, log, p, s.next);
      WrittenIs(q, s.rows, page.entries);
      var end := p.at(s.next) + |page.entries|;
      assert log[p.at(s.next)..] == page.entries + log[end..];
      FilterAppend(q.matches, page.entries, log[end..]);
    }
  }

  lemma FilterSplit<E>(matches: E -> bool, log: seq<E>, a: nat, b: nat, c: nat)
    requires a <= b <= c <= |log|
    ensures Filter(matches, log[a..c]) == Filter(matches, log[a..b]) + Filter(matches, log[b..c])
  {
    assert log[a..c] == log[a..b] + log[b..c];
    FilterAppend(matches, log[a..b], log[b..c]);
  }

  lemma EmitsOn<E>(q: Listing<E>, log: seq<E>, p: Places, s: Scan<E>, r: Scan<E>, t: Scan<E>)
    requires p.at(s.next) <= |log| && Emits(q, log, p, s, r) && r.failure.None? && r.next != ""
    requires Emits(q, log, p, r, t)
    ensures Emits(q, log, p, s, t)
  {
    var a, b := p.at(s.next), p.at(r.next);
    FilterSplit(q.matches, log, a, b, |log|);
    assert log[a..|log|] == log[a..] && log[b..|log|] == log[b..];
    if t.failure.None? {
      FilterSplit(q.matches, log, a, b, Behind(log, p, t.next));
    }
  }

  /** A scan emits the filter of exactly what lies between its cursor and the one it reports. */
  lemma {:induction false} ScanEmits<E>(q: Listing<E>, log: seq<E>, p: Places, s: Scan<E>)
    requires Serves(q.list, log, p) && p.given(s.next) && s.failure.None? && s.pages < AUDIT_SCAN_PAGES
    ensures Emits(q, log, p, s, ScanOn(q, s))
    decreases AUDIT_SCAN_PAGES - s.pages
  {
    PageEmits(q, log, p, s);
    var r := PageRead(q, s);
    if r.failure.None? && !ScanDone(q.active, |r.rows|, q.limit, r.next) && r.pages < AUDIT_SCAN_PAGES {
      ScanEmits(q, log, p, r);
      EmitsOn(q, log, p, s, r, ScanOn(q, r));
    }
  }

  // ---------- chained scans ----------

  /** One scan after another, each from the cursor the one before reported, until one reports none. */
  ghost predicate Chain<E>(q: Listing<E>, cursor: string, scans: seq<Scan<E>>)
    decreases |scans|
  {
    && |scans| > 0 && scans[0] == ScanOn(q, Start(cursor)) && scans[0].failure.None?
    && if scans[0].next == "" then |scans| == 1 else Chain(q, scans[0].next, scans[1..])
  }

  function AllRows<E>(scans: seq<Scan<E>>): seq<E> {
    if |scans| == 0 then [] else scans[0].rows + AllRows(scans[1..])
  }

  lemma FirstEmits<E>(q: Listing<E>, log: seq<E>, p: Places, cursor: string, first: Scan<E>)
    requires Serves(q.list, log, p) && p.given(cursor)
    requires first == ScanOn(q, Start(cursor)) && first.failure.None?
    ensures var a, b := p.at(cursor), Behind(log, p, first.next);
            && p.given(first.next) && a <= b <= |log| && first.rows == Filter(q.matches, log[a..b])
            && (first.next != "" ==> a < p.at(first.next))
  {
    ScanEmits(q, log, p, Start(cursor));
    var a, b := p.at(cursor), Behind(log, p, first.next);
    assert [] + Filter(q.matches, log[a..b]) == Filter(q.matches, log[a..b]);
  }

  lemma RowsSplit<E>(matches: E -> bool, log: seq<E>, a: nat, b: nat)
    requires a <= b <= |log|
    ensures Filter(matches, log[a..]) == Filter(matches, log[a..b]) + Filter(matches, log[b..])
  {
    FilterSplit(matches, log, a, b, |log|);
    assert log[a..|log|] == log[a..] && log[b..|log|] == log[b..];
  }

  /** Chaining scans emits the filter of the rest of the log with no gap and no duplicate. */
  lemma {:induction false} ChainRows<E>(q: Listing<E>, log: seq<E>, p: Places, cursor: string, scans: seq<Scan<E>>)
    requires Serves(q.list, log, p) && p.given(cursor) && Chain(q, cursor, scans)
    ensures AllRows(scans) == Filter(q.matches, log[p.at(cursor)..])
    decreases |scans|
  {
    var first := scans[0];
    FirstEmits(q, log, p, cursor, first);
    var a, b := p.at(cursor), Behind(log, p, first.next);
    RowsSplit(q.matches, log, a, b);
    if first.next == "" {
      assert scans[1..] == [] && log[b..] == [];
    } else {
      ChainRows(q, log, p, first.next, scans[1..]);
    }
  }

  /** Whole log: chaining from no cursor emits the filter of everything. */
  lemma ChainIsFilter<E>(q: Listing<E>, log: seq<E>, p: Places, scans: seq<Scan<E>>)
    requires Serves(q.list, log, p) && Chain(q, "", scans)
    ensures AllRows(scans) == Filter(q.matches, log)
  {
    ChainRows(q, log, p, "", scans);
    assert log[0..] == log;
  }

  /** When nothing fails the chain ends, after no more scans than entries are left and one. */
  lemma {:induction false} ChainEnds<E>(q: Listing<E>, log: seq<E>, p: Places, cursor: string)
      returns (scans: seq<Scan<E>>)
    requires Serves(q.list, log, p) && p.given(cursor) && q.room.None?
    requires forall c | p.given(c) :: q.list(c).Ok?
    ensures Chain(q, cursor, scans) && |scans| <= |log| - p.at(cursor) + 1
    decreases |log| - p.at(cursor)
  {
    ScanEmits(q, log, p, Start(cursor));
    NeverFails(q, log, p, Start(cursor));
    var first := ScanOn(q, Start(cursor));
    if first.next == "" {
      scans := [first];
    } else {
      var rest := ChainEnds(q, log, p, first.next);
      scans := [first] + rest;
      assert scans[1..] == rest;
    }
  }

  lemma {:induction false} NeverFails<E>(q: Listing<E>, log: seq<E>, p: Places, s: Scan<E>)
    requires Serves(q.list, log, p) && p.given(s.next) && q.room.None? && s.failure.None?
    requires forall c | p.given(c) :: q.list(c).Ok?
    ensures ScanOn(q, s).failure.None?
    decreases AUDIT_SCAN_PAGES - s.pages
  {
    if s.pages < AUDIT_SCAN_PAGES {
      var page := q.list(s.next).value;
      WrittenIs(q, s.rows, page.entries);
      PageEmits(q, log, p, s);
      NeverFails(q, log, p, PageRead(q, s));
    }
  }

  /** Why a page fails: the listing's own reason, with no row of that page; or the writer, with no further cursor
      taken.
   */
  lemma PageFails<E>(q: Listing<E>, s: Scan<E>)
    requires s.failure.None?
    ensures var r := PageRead(q, s);
            && r.pages == s.pages + 1
            && (q.list(s.next).Err? ==> r == s.(failure := Some(ListFailed(q.list(s.next).error)), pages := r.pages))
            && (q.list(s.next).Ok? && r.failure.Some? ==> r.failure == Some(WriteFailed) && r.next == s.next)
            && (r.failure.None? ==> q.list(s.next).Ok? && r.next == q.list(s.next).value.next)
  {
  }
}
