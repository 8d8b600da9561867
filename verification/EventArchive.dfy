/** Reading the Controller's event log: page by page over HTTP while it may still grow
    (`controller_event_archive`), and in one query from the stopped database (`export_events`). */
module EventArchive {
  datatype Event = Event(sequence: int, content: nat)

  /** An element of a page as the client parses it. */
  datatype Item = Malformed | Row(event: Event)

  datatype Response = InvalidPage | Page(items: seq<Item>)

  datatype Error = BadPage | Gap | BudgetExhausted

  datatype Archive = Complete(events: seq<Event>, through: nat) | Rejected(error: Error)

  /** The answer to the request number `n` of a reader that asks for events after a sequence number. */
  type Server = (nat, nat) -> Response

  /** Sequences exactly 1, 2, 3, … */
  predicate Contiguous(events: seq<Event>) {
    forall i | 0 <= i < |events| :: events[i].sequence == i + 1
  }

  predicate Follows(items: seq<Item>, after: nat) {
    forall i | 0 <= i < |items| :: items[i].Row? && items[i].event.sequence == after + i + 1
  }

  function EventsOf(items: seq<Item>): seq<Event>
    requires forall i | 0 <= i < |items| :: items[i].Row?
  {
    seq(|items|, i requires 0 <= i < |items| => items[i].event)
  }

  // ----- The paging loop -----

  /** What the reader returns from its request number `n` on, with the events it already has. */
  ghost function Rest(fetch: Server, n: nat, events: seq<Event>, maxPages: nat): Archive
    decreases maxPages - n
  {
    if n >= maxPages then Rejected(BudgetExhausted)
    else
      match fetch(n, |events|)
      case InvalidPage => Rejected(BadPage)
      case Page(items) =>
        if items == [] then Complete(events, |events|)
        else if Follows(items, |events|) then Rest(fetch, n + 1, events + EventsOf(items), maxPages)
        else Rejected(Gap)
  }

  method ControllerEventArchive(fetch: Server, maxPages: nat) returns (r: Archive)
    ensures r == Rest(fetch, 0, [], maxPages)
    ensures r.Complete? ==> Contiguous(r.events) && |r.events| == r.through
  {
    var events: seq<Event>, after: nat := [], 0;
    for n := 0 to maxPages
      invariant Contiguous(events) && after == |events|
      invariant Rest(fetch, n, events, maxPages) == Rest(fetch, 0, [], maxPages)
    {
      var response := fetch(n, after);
      if response.InvalidPage? {
        return Rejected(BadPage);
      }
      var page := response.items;
      if page == [] {
        return Complete(events, after);
      }
      ghost var before := events;
      for i := 0 to |page|
        invariant after == |before| + i && Contiguous(events) && Follows(page[..i], |before|)
        invariant events == before + EventsOf(page[..i])
      {
        if page[i].Malformed? || page[i].event.sequence != after + 1 {
          assert !Follows(page, |before|);
          return Rejected(Gap);
        }
        after := page[i].event.sequence;
        events := events + [page[i].event];
        assert EventsOf(page[..i + 1]) == EventsOf(page[..i]) + [page[i].event];
      }
      assert page[..|page|] == page;
    }
    r := Rejected(BudgetExhausted);
  }

  /** Whatever the server answers, a returned archive has sequences exactly 1..n with n the reported end, and the
      last page read was empty. */
  lemma {:induction false} CompleteIsContiguous(fetch: Server, n: nat, events: seq<Event>, maxPages: nat)
    requires Contiguous(events) && Rest(fetch, n, events, maxPages).Complete?
    ensures var r := Rest(fetch, n, events, maxPages);
      && Contiguous(r.events) && |r.events| == r.through && events <= r.events
      && exists p: nat :: n <= p < maxPages && fetch(p, r.through) == Page([])
    decreases maxPages - n
  {
    var response := fetch(n, |events|);
    if response.items != [] {
      CompleteIsContiguous(fetch, n + 1, events + EventsOf(response.items), maxPages);
    }
  }

  // ----- An honest server over a growing log -----

  /** The log at the time of each request: strictly ascending positive sequences, only ever appended to. */
  ghost predicate Ascending(log: seq<Event>) {
    && (forall i | 0 <= i < |log| :: log[i].sequence >= 1)
    && (forall i, j | 0 <= i < j < |log| :: log[i].sequence < log[j].sequence)
  }

  ghost predicate AppendOnly(log: nat -> seq<Event>) {
    (forall n: nat :: Ascending(log(n))) && (forall n: nat, m: nat | n <= m :: log(n) <= log(m))
  }

  /** The rows of the log after a sequence number, in order. */
  function After(log: seq<Event>, after: nat): seq<Event> {
    if log == [] then []
    else (if log[0].sequence > after then [log[0]] else []) + After(log[1..], after)
  }

  function AsItems(events: seq<Event>): seq<Item> {
    seq(|events|, i requires 0 <= i < |events| => Row(events[i]))
  }

  /** Every request is answered with some of the next rows, and with none only when there are none. */
  ghost predicate Honest(fetch: Server, log: nat -> seq<Event>) {
    forall n: nat, after: nat :: HonestAnswer(fetch(n, after), After(log(n), after))
  }

  ghost predicate HonestAnswer(response: Response, rows: seq<Event>) {
    response.Page? && |response.items| <= |rows| && response.items == AsItems(rows[..|response.items|])
    && (response.items == [] ==> rows == [])
  }

  lemma {:induction false} AfterAll(log: seq<Event>, after: nat)
    requires forall i | 0 <= i < |log| :: log[i].sequence > after
    ensures After(log, after) == log
  {
    if log != [] {
      AfterAll(log[1..], after);
      assert log == [log[0]] + log[1..];
    }
  }

  lemma {:induction false} AfterSkips(log: seq<Event>, k: nat, after: nat)
    requires k <= |log| && forall i | 0 <= i < k :: log[i].sequence <= after
    ensures After(log, after) == After(log[k..], after)
    decreases k
  {
    if k > 0 {
      AfterSkips(log[1..], k - 1, after);
      assert log[1..][k - 1..] == log[k..];
    } else {
      assert log[k..] == log;
    }
  }

  /** When the first rows are 1..n, the rows after n are the rest. */
  lemma AfterPrefix(log: seq<Event>, n: nat)
    requires Ascending(log) && n <= |log| && Contiguous(log[..n])
    ensures After(log, n) == log[n..]
  {
    assert forall i | 0 <= i < n :: log[i] == log[..n][i];
    AfterSkips(log, n, n);
    forall i | n <= i < |log| ensures log[i].sequence > n {
      if n > 0 { assert log[n - 1].sequence < log[i].sequence; }
    }
    AfterAll(log[n..], n);
  }

  /** One honest page extends what was read of the log, or shows that it is all. */
  lemma HonestPage(response: Response, log: seq<Event>, e: nat)
    requires Ascending(log) && e <= |log| && Contiguous(log[..e])
    requires HonestAnswer(response, After(log, e))
    ensures e + |response.items| <= |log|
    ensures response.items == [] ==> e == |log|
    ensures Follows(response.items, e) ==>
      && log[..e] + EventsOf(response.items) == log[..e + |response.items|]
      && Contiguous(log[..e + |response.items|])
  {
    AfterPrefix(log, e);
    var items := response.items;
    if Follows(items, e) {
      assert EventsOf(items) == log[e..][..|items|];
      var more := log[..e + |items|];
      assert log[..e] + EventsOf(items) == more;
      forall i | 0 <= i < |more| ensures more[i].sequence == i + 1 {
        if i < e { assert more[i] == log[..e][i]; } else { assert more[i] == items[i - e].event; }
      }
    }
  }

  /** Whatever page sizes the server uses and however the log grows, a returned archive is exactly the log at the
      moment of the empty page. */
  lemma {:induction false} ArchiveIsTheLog(
    fetch: Server, log: nat -> seq<Event>, n: nat, e: nat, maxPages: nat) returns (p: nat)
    requires AppendOnly(log) && Honest(fetch, log) && e <= |log(n)| && Contiguous(log(n)[..e])
    requires Rest(fetch, n, log(n)[..e], maxPages).Complete?
    ensures n <= p < maxPages && Rest(fetch, n, log(n)[..e], maxPages).events == log(p)
    ensures fetch(p, |log(p)|) == Page([])
    decreases maxPages - n
  {
    hide Contiguous, Ascending, After, HonestAnswer, EventsOf, Follows;
    assert HonestAnswer(fetch(n, e), After(log(n), e));
    HonestPage(fetch(n, e), log(n), e);
    HonestIsPage(fetch(n, e), After(log(n), e));
    var items := fetch(n, e).items;
    if items == [] {
      p := n;
      assert log(n)[..e] == log(n);
    } else {
      assert log(n) <= log(n + 1);
      assert log(n + 1)[..e + |items|] == log(n)[..e + |items|];
      p := ArchiveIsTheLog(fetch, log, n + 1, e + |items|, maxPages);
    }
  }

  lemma HonestIsPage(response: Response, rows: seq<Event>)
    requires HonestAnswer(response, rows)
    ensures response.Page?
  {
  }

  // ----- The one-shot export, and when the two agree -----

  /** Reads all rows of the stopped database; succeeds exactly when their sequences are 1..n. */
  method ExportEvents(rows: seq<Event>) returns (r: Archive)
    ensures r.Complete? <==> Contiguous(rows)
    ensures r.Complete? ==> r == Complete(rows, |rows|)
  {
    var events: seq<Event> := [];
    for i := 0 to |rows|
      invariant events == rows[..i] && Contiguous(rows[..i])
    {
      if rows[i].sequence != i + 1 {
        return Rejected(Gap);
      }
      events := events + [rows[i]];
    }
    assert rows[..|rows|] == rows;
    r := Complete(events, |events|);
  }

  function First(rows: seq<Event>, limit: nat): seq<Event> {
    if |rows| <= limit then rows else rows[..limit]
  }

  /** The server's page query on a log that no longer changes. */
  ghost predicate Frozen(fetch: Server, log: seq<Event>, limit: nat) {
    forall n: nat, after: nat :: fetch(n, after) == Page(AsItems(First(After(log, after), limit)))
  }

  lemma FrozenIsHonest(fetch: Server, log: seq<Event>, limit: nat)
    requires Ascending(log) && limit >= 1 && Frozen(fetch, log, limit)
    ensures Honest(fetch, (_: nat) => log) && AppendOnly((_: nat) => log)
  {
    forall n: nat, after: nat ensures HonestAnswer(fetch(n, after), After(log, after)) {
      var rows := After(log, after);
      assert First(rows, limit) == rows[..|First(rows, limit)|];
    }
  }

  lemma FrozenPage(fetch: Server, log: seq<Event>, limit: nat, n: nat, e: nat)
    requires Ascending(log) && Contiguous(log) && limit >= 1 && Frozen(fetch, log, limit) && e <= |log|
    ensures fetch(n, e).Page?
    ensures var items := fetch(n, e).items;
      && |items| == (if |log| - e <= limit then |log| - e else limit)
      && Follows(items, e) && log[..e] + EventsOf(items) == log[..e + |items|]
  {
    AfterPrefix(log, e);
    var page := First(log[e..], limit);
    assert fetch(n, e) == Page(AsItems(page));
    assert EventsOf(AsItems(page)) == page;
    assert log[..e] + page == log[..e + |page|];
  }

  /** From request `n` on, the reader finishes exactly when one page is left for the empty answer. */
  lemma {:induction false} FinishesIffBudget(fetch: Server, log: seq<Event>, limit: nat, n: nat, e: nat, maxPages: nat)
    requires Ascending(log) && Contiguous(log) && limit >= 1 && Frozen(fetch, log, limit) && e <= |log|
    ensures Rest(fetch, n, log[..e], maxPages).Complete? <==>
              n < maxPages && |log| - e <= limit * (maxPages - 1 - n)
    decreases maxPages - n
  {
    hide Ascending, Contiguous, Frozen, Follows, EventsOf;
    if n < maxPages {
      FrozenPage(fetch, log, limit, n, e);
      var items := fetch(n, e).items;
      if e == |log| {
        BudgetRest(limit, maxPages - 1 - n);
      } else {
        FinishesIffBudget(fetch, log, limit, n + 1, e + |items|, maxPages);
        BudgetStep(limit, maxPages - 1 - n, |log| - e, |items|);
      }
    }
  }

  lemma BudgetRest(limit: nat, k: nat)
    ensures limit * k >= 0
  {
  }

  lemma BudgetStep(limit: nat, k: nat, rows: nat, taken: nat)
    requires limit >= 1 && rows >= 1 && taken == (if rows <= limit then rows else limit)
    ensures rows <= limit * k <==> k >= 1 && rows - taken <= limit * (k - 1)
  {
    if k >= 1 {
      assert limit * k == limit * (k - 1) + limit;
      assert limit * (k - 1) >= 0;
    }
  }

  /** On a log that no longer changes, the paged archive succeeds exactly when the one-shot export does and the log
      leaves one page of the budget for the final empty answer; it then lists the same events. In particular both
      reject every gap, and with 1000 pages of 1000 events a log of 999,001 is refused. */
  lemma PagedAgreesWithExport(fetch: Server, log: seq<Event>, limit: nat, maxPages: nat)
    requires Ascending(log) && limit >= 1 && Frozen(fetch, log, limit)
    ensures var paged := Rest(fetch, 0, [], maxPages);
      && (paged.Complete? <==> Contiguous(log) && maxPages >= 1 && |log| <= limit * (maxPages - 1))
      && (paged.Complete? ==> paged == Complete(log, |log|))
  {
    FrozenIsHonest(fetch, log, limit);
    if Rest(fetch, 0, [], maxPages).Complete? {
      CompleteIsContiguous(fetch, 0, [], maxPages);
      assert log[..0] == [];
      var p := ArchiveIsTheLog(fetch, (_: nat) => log, 0, 0, maxPages);
    }
    if Contiguous(log) {
      FinishesIffBudget(fetch, log, limit, 0, 0, maxPages);
      assert log[..0] == [];
    }
  }
}
