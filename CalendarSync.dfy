/**
 * The calendar sync handler: list the writable calendars of both accounts, gather their events
 * (at most 2000 per calendar, 4000 per account), and create in the destination's primary
 * calendar every source event whose key the destination does not have yet.
 */
module CalendarSync {
  import opened Base
  import opened Cookies
  import opened Gate
  import opened Paging
  import opened Reconciler
  import Text

  const EventsPerCalendar := 2000
  const EventsPerAccount := 4000
  const FallbackCalendar := "primary"
  const ListFailed := "Failed to list calendar events"

  /** A `start` or `end` object; only `dateTime` and `date` take part in the key. */
  datatype EventTime = EventTime(dateTime: Option<string>, date: Option<string>, timeZone: Option<string>)

  /** An event as the events endpoint returns it; `None` is an absent or null field. */
  datatype Event = Event(id: Option<string>, summary: Option<string>, description: Option<string>,
                         start: Option<EventTime>, end: Option<EventTime>, location: Option<string>)

  /** An item of the calendar list; "" stands for an absent id or role, and for a null item. */
  datatype CalendarEntry = CalendarEntry(id: string, accessRole: string)

  /** The body of a create request: five fields copied from the source event, and no id. */
  datatype EventBody = EventBody(summary: Option<string>, description: Option<string>,
                                 start: Option<EventTime>, end: Option<EventTime>, location: Option<string>)

  /**
   * One account's side of the remote API: the reply to the calendar-list request, and for the
   * i-th listed calendar the replies to its event-page requests.
   */
  datatype CalendarAccount = CalendarAccount(calendarList: Reply<CalendarEntry>, events: seq<seq<Reply<Event>>>)

  // ----- the event key -------------------------------------------------------------------------

  /** `ev.summary || ''`. */
  function SummaryText(ev: Event): (s: string)
    ensures s == [] <==> ev.summary.None? || ev.summary == Some([])
    ensures s != [] ==> ev.summary == Some(s)
  {
    OrEmpty(ev.summary)
  }

  /** `(ev.start && (ev.start.dateTime || ev.start.date)) || ''`. */
  function StartText(ev: Event): (s: string)
    // a non-empty `dateTime` wins over `date`; the start is empty only when both are
    ensures ev.start.Some? && OrEmpty(ev.start.value.dateTime) != [] ==> s == ev.start.value.dateTime.value
    ensures ev.start.Some? && OrEmpty(ev.start.value.dateTime) == [] ==> s == OrEmpty(ev.start.value.date)
    ensures s == [] <==>
      ev.start.None? || (OrEmpty(ev.start.value.dateTime) == [] && OrEmpty(ev.start.value.date) == [])
  {
    if ev.start.None? then []
    else if OrEmpty(ev.start.value.dateTime) != [] then ev.start.value.dateTime.value
    else OrEmpty(ev.start.value.date)
  }

  /** The key an event is matched by: its title and its start, joined by a bar. */
  function EventKey(ev: Event): (k: string)
    ensures k != [] && '|' in k
  {
    var k := SummaryText(ev) + "|" + StartText(ev);
    assert k[|SummaryText(ev)|] == '|';
    k
  }

  /** When the title has no bar, the first bar of the key splits it back into title and start. */
  lemma KeyDecodes(ev: Event)
    requires '|' !in SummaryText(ev)
    ensures var k := EventKey(ev); var i := Text.IndexOf(k, '|');
      && i == |SummaryText(ev)|
      && k[..i] == SummaryText(ev)
      && k[i + 1..] == StartText(ev)
  {
    var s := SummaryText(ev);
    var k := EventKey(ev);
    assert k[..|s|] == s;
    assert k[|s|] == '|';
    assert '|' !in k[..|s|];
    assert k[|s| + 1..] == StartText(ev);
  }

  /** Two events whose titles have no bar share a key exactly when they share title and start. */
  lemma SameKey(a: Event, b: Event)
    requires '|' !in SummaryText(a) && '|' !in SummaryText(b)
    ensures EventKey(a) == EventKey(b) <==> SummaryText(a) == SummaryText(b) && StartText(a) == StartText(b)
  {
    KeyDecodes(a);
    KeyDecodes(b);
  }

  /** A bar inside a title makes different events collide. */
  lemma KeyCollision()
    ensures var a := Event(None, Some("a|b"), None, Some(EventTime(None, Some("c"), None)), None, None);
            var b := Event(None, Some("a"), None, Some(EventTime(None, Some("b|c"), None)), None, None);
            a != b && EventKey(a) == EventKey(b)
  {
  }

  /** The keys of a list of events, in order. */
  function EventKeys(evs: seq<Event>): (ks: seq<string>)
    ensures |ks| == |evs|
    ensures forall i :: 0 <= i < |evs| ==> ks[i] == EventKey(evs[i])
  {
    if evs == [] then [] else EventKeys(evs[..|evs| - 1]) + [EventKey(evs[|evs| - 1])]
  }

  /** The create body for a source event. */
  function BodyOf(ev: Event): (b: EventBody)
    // if the destination lists the created event back with the fields it was sent (`Stored`),
    // that event has the source event's key, so the next run skips it as known
    ensures EventKey(Stored(b)) == EventKey(ev)
    // the body carries summary, description, start, end and location: listed back, it is the
    // source event without its id
    ensures Stored(b) == ev.(id := None)
  {
    EventBody(ev.summary, ev.description, ev.start, ev.end, ev.location)
  }

  /**
   * The event the destination lists after accepting a body, assumed to echo the fields it was
   * sent; it assigns its own id.
   */
  function Stored(b: EventBody): Event
  {
    Event(None, b.summary, b.description, b.start, b.end, b.location)
  }

  /** The source id never reaches the destination: events that differ only in id give one body. */
  lemma BodyIgnoresId(ev: Event, id: Option<string>)
    ensures BodyOf(ev.(id := id)) == BodyOf(ev)
  {
  }

  // ----- listing -------------------------------------------------------------------------------

  predicate CanWrite(c: CalendarEntry)
  {
    c.id != [] && (c.accessRole == "owner" || c.accessRole == "writer")
  }

  /** The ids of the calendars the account owns or can write, in list order. */
  function Writable(items: seq<CalendarEntry>): (ids: seq<string>)
    ensures |ids| <= |items|
    ensures forall id :: id in ids <==> exists i :: 0 <= i < |items| && CanWrite(items[i]) && items[i].id == id
    ensures forall id :: id in ids ==> id != []
  {
    if items == [] then []
    else
      var init := items[..|items| - 1];
      var last := items[|items| - 1];
      var ids := Writable(init) + (if CanWrite(last) then [last.id] else []);
      assert forall i :: 0 <= i < |init| ==> init[i] == items[i];
      ids
  }

  /** The filter keeps list order: the ids of two lists in a row are the ids of each, in a row. */
  lemma {:induction false} WritableAppend(xs: seq<CalendarEntry>, ys: seq<CalendarEntry>)
    ensures Writable(xs + ys) == Writable(xs) + Writable(ys)
    decreases |ys|
  {
    if ys == [] {
      assert xs + ys == xs;
    } else {
      var init := ys[..|ys| - 1];
      assert (xs + ys)[..|xs + ys| - 1] == xs + init;
      WritableAppend(xs, init);
    }
  }

  /** The ids `listCalendarIds` returns: the writable calendars, or `primary` when there are none. */
  function CalendarIds(reply: Reply<CalendarEntry>): (r: Result<seq<string>>)
    ensures r.Ok? <==> reply.Page?
    ensures r.Ok? ==> r.value != [] && forall id :: id in r.value ==> id != []
    ensures r.Ok? && Writable(reply.items) == [] ==> r.value == [FallbackCalendar]
    ensures r.Ok? && Writable(reply.items) != [] ==> r.value == Writable(reply.items)
  {
    if !reply.Page? then Thrown
    else if Writable(reply.items) == [] then Ok([FallbackCalendar])
    else Ok(Writable(reply.items))
  }

  /** `listCalendarIds`: one request to the calendar list; a non-ok or failed request throws. */
  method ListCalendarIds(reply: Reply<CalendarEntry>) returns (r: Result<seq<string>>)
    ensures r == CalendarIds(reply)
  {
    if !reply.Page? {
      return Thrown;
    }
    var items := reply.items;
    var out: seq<string> := [];
    var i := 0;
    while i < |items|
      invariant i <= |items|
      invariant out == Writable(items[..i])
    {
      assert items[..i + 1][..i] == items[..i];
      if CanWrite(items[i]) {
        out := out + [items[i].id];
      }
      i := i + 1;
    }
    assert items[..i] == items;
    if out == [] {
      out := [FallbackCalendar];
    }
    return Ok(out);
  }

  /** Every listed event is kept as it is. */
  function AsIs(ev: Event): Option<Event>
  {
    Some(ev)
  }

  lemma {:induction false} KeptAsIs(items: seq<Event>)
    ensures Kept(items, AsIs) == items
  {
    if items != [] {
      KeptAsIs(items[..|items| - 1]);
    }
  }

  /** The items of the first `n` event pages, concatenated in request order. */
  function PagesUpTo(replies: seq<Reply<Event>>, n: nat): seq<Event>
  {
    if n == 0 then [] else PagesUpTo(replies, n - 1) + PageItems(ReplyAt(replies, n - 1))
  }

  lemma {:induction false} GatheredAsIs(replies: seq<Reply<Event>>, n: nat)
    ensures Gathered(replies, AsIs, n) == PagesUpTo(replies, n)
  {
    if n > 0 {
      GatheredAsIs(replies, n - 1);
      KeptAsIs(PageItems(ReplyAt(replies, n - 1)));
    }
  }

  /** What `listEventsForCalendar` does with one calendar's replies. */
  function EventListing(replies: seq<Reply<Event>>): Listing<Event>
  {
    Collect(replies, AsIs, EventsPerCalendar, true)
  }

  /** One calendar's listing sends one to five requests and throws exactly when its last reply is not a page. */
  lemma EventListingThrows(replies: seq<Reply<Event>>)
    ensures var l := EventListing(replies);
      && 1 <= |l.requests| <= MaxPages
      && (l.result.Thrown? <==> !ReplyAt(replies, |l.requests| - 1).Page?)
  {
    CollectRequests(replies, AsIs, EventsPerCalendar, true);
    CollectThrows(replies, AsIs, EventsPerCalendar, true);
  }

  /** One calendar's events are the first 2000 items of the pages read, in order. */
  lemma EventListingItems(replies: seq<Reply<Event>>)
    ensures var l := EventListing(replies);
      && (l.result.Ok? ==> |l.result.value| <= EventsPerCalendar)
      && (l.result.Ok? ==> l.result.value == Take(PagesUpTo(replies, |l.requests|), EventsPerCalendar))
  {
    var l := EventListing(replies);
    CollectItems(replies, AsIs, EventsPerCalendar, true);
    GatheredAsIs(replies, |l.requests|);
  }

  /** `listEventsForCalendar`: up to five pages of at most 2000 events; a non-ok page throws. */
  method ListEventsForCalendar(replies: seq<Reply<Event>>) returns (events: Result<seq<Event>>, requests: seq<string>)
    ensures Listing(events, requests) == EventListing(replies)
  {
    events, requests := Paginate(replies, AsIs, EventsPerCalendar, true);
  }

  /** The replies for the i-th listed calendar; a calendar with none sees its requests fail. */
  function RepliesFor(account: CalendarAccount, i: nat): seq<Reply<Event>>
  {
    if i < |account.events| then account.events[i] else []
  }

  /** What listing each calendar gives, by its index in the calendar list. */
  type Fetch = nat -> Result<seq<Event>>

  /** The listings of an account's calendars. */
  function Fetcher(account: CalendarAccount): Fetch
  {
    (i: nat) => EventListing(RepliesFor(account, i)).result
  }

  /** The events of the first `n` calendars, concatenated; a calendar that throws adds nothing. */
  function Flat(fetch: Fetch, n: nat): seq<Event>
  {
    if n == 0 then [] else Flat(fetch, n - 1) + (if fetch(n - 1).Ok? then fetch(n - 1).value else [])
  }

  lemma {:induction false} FlatPrefix(fetch: Fetch, m: nat, n: nat)
    requires m <= n
    ensures Flat(fetch, m) <= Flat(fetch, n)
  {
    if m < n {
      FlatPrefix(fetch, m, n - 1);
    }
  }

  /**
   * The index of the calendar the account loop stops at, starting from calendar `k` of `count`:
   * one whose listing throws, one after which 4000 events are gathered, or the last one.
   */
  function LastCalendar(fetch: Fetch, count: nat, k: nat): nat
    requires k < count
    decreases count - k
  {
    if fetch(k).Thrown? || |Flat(fetch, k + 1)| >= EventsPerAccount || k + 1 == count then k
    else LastCalendar(fetch, count, k + 1)
  }

  lemma {:induction false} LastCalendarFacts(fetch: Fetch, count: nat, k: nat)
    requires k < count
    decreases count - k
    ensures k <= LastCalendar(fetch, count, k) < count
    ensures forall j :: k <= j < LastCalendar(fetch, count, k) ==> fetch(j).Ok?
    ensures var n := LastCalendar(fetch, count, k);
      fetch(n).Thrown? || |Flat(fetch, n + 1)| >= EventsPerAccount || n + 1 == count
  {
    if !(fetch(k).Thrown? || |Flat(fetch, k + 1)| >= EventsPerAccount || k + 1 == count) {
      LastCalendarFacts(fetch, count, k + 1);
    }
  }

  /** Before the calendar the loop stops at, fewer than 4000 events are gathered. */
  lemma {:induction false} BeforeLastCalendar(fetch: Fetch, count: nat, k: nat, j: nat)
    requires k < count && k <= j < LastCalendar(fetch, count, k)
    decreases count - k
    ensures |Flat(fetch, j + 1)| < EventsPerAccount
  {
    if k < j {
      BeforeLastCalendar(fetch, count, k + 1, j);
    }
  }

  /** What the account loop returns over `count` calendars. */
  function Gather(fetch: Fetch, count: nat): Result<seq<Event>>
    requires count > 0
  {
    var n := LastCalendar(fetch, count, 0);
    if fetch(n).Thrown? then Thrown else Ok(Take(Flat(fetch, n + 1), EventsPerAccount))
  }

  /** The account loop's events are the first 4000 of all the calendars' events, calendar by calendar in list order. */
  lemma GatherItems(fetch: Fetch, count: nat)
    requires count > 0
    ensures Gather(fetch, count).Ok? ==>
      && |Gather(fetch, count).value| <= EventsPerAccount
      && Gather(fetch, count).value == Take(Flat(fetch, count), EventsPerAccount)
  {
    var n := LastCalendar(fetch, count, 0);
    LastCalendarFacts(fetch, count, 0);
    if fetch(n).Ok? {
      GatherSuccess(fetch, count, n);
    }
  }

  /** The account loop throws exactly when a calendar fails before 4000 events are gathered. */
  lemma GatherThrows(fetch: Fetch, count: nat)
    requires count > 0
    ensures Gather(fetch, count).Thrown? <==>
      exists j :: 0 <= j < count && fetch(j).Thrown? && |Flat(fetch, j)| < EventsPerAccount
  {
    var n := LastCalendar(fetch, count, 0);
    LastCalendarFacts(fetch, count, 0);
    if fetch(n).Thrown? {
      assert |Flat(fetch, n)| < EventsPerAccount by {
        GatherFailure(fetch, count, n);
      }
      assert Gather(fetch, count).Thrown?;
    } else {
      assert forall j :: n < j < count && fetch(j).Thrown? ==> |Flat(fetch, j)| >= EventsPerAccount by {
        GatherSuccess(fetch, count, n);
      }
      assert Gather(fetch, count).Ok?;
    }
  }

  lemma GatherFailure(fetch: Fetch, count: nat, n: nat)
    requires 0 <= n < count && n == LastCalendar(fetch, count, 0) && fetch(n).Thrown?
    ensures |Flat(fetch, n)| < EventsPerAccount
  {
    if n > 0 {
      BeforeLastCalendar(fetch, count, 0, n - 1);
    }
  }

  lemma GatherSuccess(fetch: Fetch, count: nat, n: nat)
    requires 0 <= n < count && fetch(n).Ok?
    requires |Flat(fetch, n + 1)| >= EventsPerAccount || n + 1 == count
    ensures Take(Flat(fetch, n + 1), EventsPerAccount) == Take(Flat(fetch, count), EventsPerAccount)
    ensures forall j :: 0 <= j < count && fetch(j).Thrown? && j > n ==> |Flat(fetch, j)| >= EventsPerAccount
  {
    if n + 1 < count {
      FlatPrefix(fetch, n + 1, count);
      TakeOfPrefix(Flat(fetch, n + 1), Flat(fetch, count), EventsPerAccount);
    }
    forall j | 0 <= j < count && fetch(j).Thrown? && j > n
      ensures |Flat(fetch, j)| >= EventsPerAccount
    {
      FlatPrefix(fetch, n + 1, j);
    }
  }

  /** What `listAllEvents` returns for one account. */
  function AllEvents(account: CalendarAccount): Result<seq<Event>>
  {
    var ids := CalendarIds(account.calendarList);
    if ids.Thrown? then Thrown else Gather(Fetcher(account), |ids.value|)
  }

  /**
   * An account's events: `Thrown` when its calendar list fails, and otherwise what the account
   * loop gathers over the listed calendars.
   */
  lemma AllEventsMeaning(account: CalendarAccount)
    ensures var ids := CalendarIds(account.calendarList); var fetch := Fetcher(account);
      && (AllEvents(account).Ok? ==>
            && ids.Ok?
            && |AllEvents(account).value| <= EventsPerAccount
            && AllEvents(account).value == Take(Flat(fetch, |ids.value|), EventsPerAccount))
      && (AllEvents(account).Thrown? <==>
            || ids.Thrown?
            || exists j :: 0 <= j < |ids.value| && fetch(j).Thrown? && |Flat(fetch, j)| < EventsPerAccount)
  {
    var ids := CalendarIds(account.calendarList);
    if ids.Ok? {
      GatherItems(Fetcher(account), |ids.value|);
      GatherThrows(Fetcher(account), |ids.value|);
    }
  }

  /** The listing of the i-th calendar. */
  method FetchCalendar(account: CalendarAccount, i: nat) returns (evs: Result<seq<Event>>)
    ensures evs == Fetcher(account)(i)
  {
    var requests;
    evs, requests := ListEventsForCalendar(RepliesFor(account, i));
  }

  /** The loop reaches a calendar whose listing throws: the whole listing throws. */
  lemma GatherThrowsAt(fetch: Fetch, count: nat, i: nat)
    requires i < count && LastCalendar(fetch, count, i) == LastCalendar(fetch, count, 0)
    requires fetch(i).Thrown?
    ensures Gather(fetch, count).Thrown?
  {
  }

  /** One pass of the account loop over a calendar that lists. */
  lemma GatherStep(fetch: Fetch, count: nat, i: nat)
    requires i < count && LastCalendar(fetch, count, i) == LastCalendar(fetch, count, 0)
    requires fetch(i).Ok? && |Flat(fetch, i)| < EventsPerAccount
    ensures var next := Take(Flat(fetch, i) + fetch(i).value, EventsPerAccount);
      && (|next| >= EventsPerAccount || i + 1 == count ==> Gather(fetch, count) == Ok(next))
      && (|next| < EventsPerAccount ==> next == Flat(fetch, i + 1))
      && (|next| < EventsPerAccount && i + 1 < count ==>
            LastCalendar(fetch, count, i + 1) == LastCalendar(fetch, count, 0))
  {
    assert Flat(fetch, i + 1) == Flat(fetch, i) + fetch(i).value;
  }

  /** `listAllEvents`: the calendars' events in list order, stopping at 4000 or at a listing that throws. */
  method ListAllEvents(account: CalendarAccount) returns (r: Result<seq<Event>>)
    ensures r == AllEvents(account)
  {
    var ids := ListCalendarIds(account.calendarList);
    if ids.Thrown? {
      return Thrown;
    }
    var count := |ids.value|;
    ghost var fetch := Fetcher(account);
    var all: seq<Event> := [];
    var i := 0;
    while i < count
      invariant i <= count
      invariant i < count ==> LastCalendar(fetch, count, i) == LastCalendar(fetch, count, 0)
      invariant i < count ==> all == Flat(fetch, i) && |all| < EventsPerAccount
      invariant i == count ==> Gather(fetch, count) == Ok(all)
    {
      var evs := FetchCalendar(account, i);
      if evs.Thrown? {
        GatherThrowsAt(fetch, count, i);
        return Thrown;
      }
      KeptAsIs(evs.value);
      all := AppendPage(all, evs.value, AsIs, EventsPerAccount);
      GatherStep(fetch, count, i);
      if |all| >= EventsPerAccount {
        return Ok(all);
      }
      i := i + 1;
    }
    return Ok(all);
  }

  // ----- the handler ---------------------------------------------------------------------------

  /** The keys of the destination's events. */
  function KeySet(evs: seq<Event>): set<string>
  {
    set i | 0 <= i < |evs| :: EventKey(evs[i])
  }

  /** The loop that fills `destKeys` with the key of every destination event. */
  method DestinationKeys(evs: seq<Event>) returns (keys: set<string>)
    ensures forall k :: k in keys <==> exists i :: 0 <= i < |evs| && EventKey(evs[i]) == k
    ensures keys == KeySet(evs)
  {
    keys := {};
    var i := 0;
    while i < |evs|
      invariant i <= |evs|
      invariant keys == KeySet(evs[..i])
    {
      assert evs[..i + 1][..i] == evs[..i];
      assert evs[..i + 1][i] == evs[i];
      keys := keys + {EventKey(evs[i])};
      i := i + 1;
    }
    assert evs[..i] == evs;
  }

  /**
   * The calendar sync handler. Besides the response it yields the refresh tokens exchanged, the
   * decision taken for each source event reached, and the create bodies sent.
   */
  method SyncCalendar(req: Request, env: Env, decodeUri: UriDecoder, decodeCredential: CredentialDecoder,
                      sourceReply: TokenReply, destinationReply: TokenReply,
                      source: CalendarAccount, destination: CalendarAccount, creates: seq<CreateReply>)
    returns (resp: Response, exchanges: seq<string>, decisions: seq<Decision>, payloads: seq<EventBody>)
    ensures (resp.ErrorResponse? && resp.status == 405) <==> req.httpMethod != "POST"
    ensures exchanges != [] <==> RefreshTokens(req, env, decodeUri, decodeCredential).Some?
    ensures req.httpMethod != "POST" ==> resp == ErrorResponse(405, MethodNotAllowed)
    ensures req.httpMethod == "POST" && !HasClient(env) ==> resp == ErrorResponse(500, MissingEnv)
    ensures JarThrows(req, env, decodeUri) ==> resp == Unhandled
    ensures Disconnected(req, env, decodeUri) ==> resp == ErrorResponse(400, NotConnected)
    ensures BadCredentials(req, env, decodeUri, decodeCredential) ==> resp == ErrorResponse(400, InvalidCredentials)
    ensures NullCredential(req, env, decodeUri, decodeCredential) ==> resp == Unhandled
    ensures NoRefreshToken(req, env, decodeUri, decodeCredential) ==> resp == ErrorResponse(400, MissingRefreshTokens)
    ensures RefreshTokens(req, env, decodeUri, decodeCredential).Some?
            && !Authorized(req, env, decodeUri, decodeCredential, sourceReply, destinationReply) ==>
      resp == ErrorResponse(502, RefreshFailed)
    ensures !Authorized(req, env, decodeUri, decodeCredential, sourceReply, destinationReply) ==>
      !resp.SyncReport? && decisions == [] && payloads == []
    ensures Authorized(req, env, decodeUri, decodeCredential, sourceReply, destinationReply) ==>
      if AllEvents(source).Thrown? || AllEvents(destination).Thrown? then
        resp == ErrorResponse(502, ListFailed) && decisions == [] && payloads == []
      else
        var src := AllEvents(source).value;
        var dest := AllEvents(destination).value;
        && Decided(EventKeys(src), KeySet(dest), creates, decisions)
        && Finished(EventKeys(src), decisions)
        && payloads == Payloads(src, decisions, BodyOf)
        && resp == Report(decisions, |src|, |dest|)
  {
    decisions, payloads := [], [];
    var a;
    a, exchanges := Admit(req, env, decodeUri, decodeCredential, sourceReply, destinationReply);
    if !a.Admitted? {
      return Early(a), exchanges, decisions, payloads;
    }
    var src := ListAllEvents(source);
    if src.Thrown? {
      return ErrorResponse(502, ListFailed), exchanges, decisions, payloads;
    }
    var dest := ListAllEvents(destination);
    if dest.Thrown? {
      return ErrorResponse(502, ListFailed), exchanges, decisions, payloads;
    }
    var known := DestinationKeys(dest.value);
    var created, skipped, after;
    decisions, created, skipped, after := Reconcile(EventKeys(src.value), known, creates);
    payloads := Payloads(src.value, decisions, BodyOf);
    resp := Report(decisions, |src.value|, |dest.value|);
  }

  /**
   * A run never posts an event the destination already had or one it created earlier in the
   * run, never posts one twice, and creates at most 200.
   */
  lemma RunCreatesOnlyNew(src: seq<Event>, dest: seq<Event>, creates: seq<CreateReply>, ds: seq<Decision>)
    requires Decided(EventKeys(src), KeySet(dest), creates, ds) && Finished(EventKeys(src), ds)
    ensures forall i :: 0 <= i < |ds| && Attempted(ds[i]) ==> forall e :: e in dest ==> EventKey(e) != EventKey(src[i])
    ensures forall i, j :: 0 <= j < i < |ds| && Attempted(ds[i]) && ds[j].Created? ==> EventKey(src[i]) != EventKey(src[j])
    ensures CountCreated(ds) <= CreateCap
  {
    NoDuplicateCreation(EventKeys(src), KeySet(dest), creates, ds);
    forall i, e | 0 <= i < |ds| && Attempted(ds[i]) && e in dest
      ensures EventKey(e) != EventKey(src[i])
    {
      var k :| 0 <= k < |dest| && dest[k] == e;
      assert EventKey(dest[k]) in KeySet(dest);
    }
    CappedCount(EventKeys(src), ds);
  }

  /** An event key is never empty, so the handler's empty-key branch never skips an event. */
  lemma NoEmptyKeySkip(src: seq<Event>, dest: seq<Event>, creates: seq<CreateReply>, ds: seq<Decision>)
    requires Decided(EventKeys(src), KeySet(dest), creates, ds)
    ensures forall i :: 0 <= i < |ds| ==> ds[i] != SkippedEmpty
  {
    forall i | 0 <= i < |ds|
      ensures ds[i] != SkippedEmpty
    {
      DecisionAt(EventKeys(src), KeySet(dest), creates, ds, i);
    }
  }

  // ----- worked examples -----------------------------------------------------------------------

  /** A one-off meeting: title "Standup", starting 2024-01-01T10:00. */
  function Standup(): Event
  {
    Event(None, Some("Standup"), None, Some(EventTime(Some("2024-01-01T10:00"), None, None)), None, None)
  }

  /** A new event against an empty destination is created: one created, none skipped. */
  lemma StandupIsCreated(creates: seq<CreateReply>, ds: seq<Decision>)
    requires creates != [] && creates[0] == Accepted
    requires Decided(EventKeys([Standup()]), KeySet([]), creates, ds) && Finished(EventKeys([Standup()]), ds)
    ensures CountCreated(ds) == 1 && CountSkipped(ds) == 0
  {
    assert |ds| == 1;
    assert ds[..0] == [];
  }

  /** An event the destination already has is skipped without a request: none created, one skipped. */
  lemma StandupIsKnown(creates: seq<CreateReply>, ds: seq<Decision>)
    requires Decided(EventKeys([Standup()]), KeySet([Standup()]), creates, ds) && Finished(EventKeys([Standup()]), ds)
    ensures CountCreated(ds) == 0 && CountSkipped(ds) == 1 && ds == [SkippedKnown]
  {
    assert |ds| == 1;
    assert ds[..0] == [];
    assert EventKey(Standup()) in KeySet([Standup()]);
  }

  /** Two source events with one key against an empty destination: one created, one skipped. */
  lemma StandupTwice(creates: seq<CreateReply>, ds: seq<Decision>)
    requires creates != [] && creates[0] == Accepted
    requires Decided(EventKeys([Standup(), Standup()]), KeySet([]), creates, ds)
    requires Finished(EventKeys([Standup(), Standup()]), ds)
    ensures CountCreated(ds) == 1 && CountSkipped(ds) == 1 && ds == [Created, SkippedKnown]
  {
    var keys := EventKeys([Standup(), Standup()]);
    assert ds != [];
    DecisionAt(keys, KeySet([]), creates, ds, 0);
    assert ds[..0] == [];
    assert ds[0] == Created;
    assert |ds| == 2;
    DecisionAt(keys, KeySet([]), creates, ds, 1);
    assert ds[..1] == [Created];
    assert keys[1] in Known(KeySet([]), keys, ds[..1]);
    assert CountCreated(ds[..1]) == 1 && CountSkipped(ds[..1]) == 0;
  }
}
