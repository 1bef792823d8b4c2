# One-way Google sync handlers, modelled in Dafny

The repository has two serverless handlers, `api/google/sync/calendar.js` and
`api/google/sync/contacts.js`. Each copies records one way, from a "source" Google account to a
"destination" account. Both are built the same way:

1. An admission ladder:
   - the request method must be `POST` (else 405);
   - the OAuth client must be configured (else 500);
   - the `Cookie` header is parsed, and both credential cookies must be present (else 400);
   - the credentials must decode (else 400) and carry refresh tokens (else 400);
   - one refresh-token exchange per account must succeed (else 502).
2. Bounded, cursor-paginated listing of both accounts:
   - calendar: writable calendars, then at most 5 pages and 2000 events per calendar and 4000
     per account;
   - contacts: connections (a failure aborts, cap 1000) and "other contacts" (cap 2000), merged
     on the first lowercased email. A non-ok other-contacts page ends that list with the pages
     before it; a request that throws discards the whole list. With no other contacts, the
     connections are returned as they are, duplicates included.
3. A create/skip loop:
   - each source record has an identity key: `summary|start` for events, the first email for
     contacts;
   - a record whose key is empty or already known is skipped;
   - otherwise the record is posted, and a successful create adds its key to the known set at
     once;
   - the loop stops after 200 creates.
4. A report with the counts and the two list lengths.

The model has eight modules:

- **Base**: `Option` and `Result`, plus `Take`, which models a push-then-`break` cap.
- **Text**: JavaScript `trim`, `indexOf` and `split`, and ASCII lowercasing.
- **Cookies**: the header parser, a loop proved equal to a fold.
- **Gate**: the admission ladder, which is the same in both handlers.
- **Paging**: the listing loop, written once, generic in the item type, the conversion, the cap
  and whether a non-ok page throws. It is instantiated three times.
- **Reconciler**: the create/skip loop. It is generic in the keys and records a decision log.
  The report and the list of create bodies, which both handlers share, are defined here too.
- **CalendarSync** and **ContactsSync**: the two handlers.

Each loop is a `method` proved equal to a specification function. The properties are lemmas
about those functions.

Remote calls are oracles:
- a paginated endpoint is a `seq<Reply<T>>`, where reply k answers request k and a missing
  reply fails like the network;
- create requests are answered by a `seq<CreateReply>`, the k-th create getting the k-th answer;
- each token exchange is a `TokenReply`;
- `decodeURIComponent` and the credential decoder (`JSON.parse` of the base64url cookie) are
  function parameters.

A handler method returns the response together with three things:
- the refresh tokens it exchanged;
- the decision it took for each source record it reached;
- the create bodies it sent.

Only a non-ok answer to a create request is counted as skipped. A create `fetch` that throws is
caught nowhere in either handler, so the request ends with an uncaught exception (`Unhandled`,
reported as status 500) and no report. The same holds for a cookie value that
`decodeURIComponent` rejects, and for a credential that parses to JSON `null`: `Crashed` in
`Gate.Admit`.

## Model

| member | source | states |
|---|---|---|
| Base.Take | api/google/sync/calendar.js:135-140 | the first `n` items, or all of them when there are fewer: what pushing and breaking at a cap keeps |
| Text.Trim | api/google/sync/calendar.js:21-22 | the result is a slice of the input with only white space before and after it; empty exactly when every character is JavaScript white space; otherwise it neither starts nor ends with white space; text without surrounding white space is unchanged |
| Text.IndexOf | api/google/sync/calendar.js:19 | -1 exactly when the character is absent; otherwise the position of its first occurrence |
| Text.Split | api/google/sync/calendar.js:18 | at least one piece, and no piece contains the separator |
| Text.JoinSplit | api/google/sync/calendar.js:18 | joining the pieces of a split with the separator gives the header back |
| Text.SplitJoin | api/google/sync/calendar.js:18 | splitting a join of separator-free pieces gives the pieces back |
| Text.ToLower | api/google/sync/contacts.js:103 | keeps the length, lowers each ASCII capital by 32 and leaves every other character; no capital remains |
| Text.ToLowerKeeps | api/google/sync/contacts.js:103 | lowercasing text with no capital changes nothing |
| Cookies.Entry | api/google/sync/calendar.js:19-23 | a part without `=` gives nothing; an entry's name is non-empty and has no `=` |
| Cookies.EntryAt | api/google/sync/calendar.js:19-23 | cut at the first `=`: an entry exactly when the trimmed text before it is non-empty, and then the trimmed name with the trimmed text after the `=` |
| Cookies.ParseCookies | api/google/sync/calendar.js:16-25 | the `forEach` over the parts yields the fold of the entries |
| Cookies.JarThrowsIff | api/google/sync/calendar.js:16-25 | the parse of a header throws exactly when some part carries a name whose value cannot be URI-decoded |
| Cookies.JarNames | api/google/sync/calendar.js:16-25 | a parsed header's names are exactly the names its parts carry |
| Cookies.FoldStep | api/google/sync/calendar.js:24 | one more part throws, leaves the map alone, or sets its name to its decoded value |
| Cookies.FoldThrowsForever | api/google/sync/calendar.js:24 | once a decode has thrown, no later part brings the parse back |
| Cookies.FoldThrowsIff | api/google/sync/calendar.js:24 | parsing throws exactly when some entry's value cannot be URI-decoded |
| Cookies.FoldNames | api/google/sync/calendar.js:23-24 | the map's names are exactly the names some entry carries |
| Cookies.FoldLastWins | api/google/sync/calendar.js:24 | a name maps to the decoded value of the last entry with that name |
| Gate.Admit | api/google/sync/calendar.js:2-78 | 405 exactly for a non-POST; 500 exactly for a POST without client id or secret; a crash exactly when a cookie value cannot be decoded or the ladder reads `refresh_token` of a JSON `null`; 400 "Both source and destination must be connected" exactly when a credential cookie is missing or empty; 400 "Invalid stored credentials" exactly when both are there and one does not parse; 400 "Missing refresh tokens" exactly when the source token, or after it the destination token, is empty; a token is exchanged exactly when every earlier check passed; admitted exactly when both exchanges are granted, else 502 |
| Gate.RefreshTokens | api/google/sync/calendar.js:26-50 | two tokens only when the jar was read, and they are the non-empty refresh tokens of the two parsed credentials |
| Gate.LadderPartition | api/google/sync/calendar.js:26-50 | once the jar is read, the ladder stops at exactly one 400 rung or the `null` crash, or else reaches the token exchange |
| Paging.Sent | api/google/sync/calendar.js:109-123 | request j sends no token when j is 0, else the previous page's `nextPageToken` |
| Paging.Run | api/google/sync/calendar.js:111-143 | a loop run from request g sends between g+1 and 5 requests |
| Paging.RunGoesOn | api/google/sync/calendar.js:140-143 | a loop that goes on after request g is the loop from request g+1 |
| Paging.RunEnds | api/google/sync/calendar.js:127-142 | a loop that does not go on ends at request g, and throws exactly when that reply fails |
| Paging.RunItems | api/google/sync/calendar.js:133-142 | the items are the first `cap` converted items of all pages read |
| Paging.RunPages | api/google/sync/calendar.js:141-142 | every request before the last got a page with a non-empty next token |
| Paging.RunThrows | api/google/sync/calendar.js:127-132 | the loop throws exactly when its last reply failed in a way that throws |
| Paging.RunStops | api/google/sync/calendar.js:140-142 | below the cap and the guard, the loop ends only on a page without a token or a tolerated status |
| Paging.Collect | api/google/sync/calendar.js:107-145 | a listing sends one to five requests |
| Paging.CollectItems | api/google/sync/calendar.js:133-140 | at most `cap` items: the first `cap` converted items of the pages read, in request order |
| Paging.CollectRequests | api/google/sync/calendar.js:109-142 | the first request sends no token; each later one sends the previous page's token, which was non-empty, and every earlier reply was a page |
| Paging.CollectThrows | api/google/sync/calendar.js:127-132 | a listing throws exactly when its last request failed and, for a tolerant listing, only on a network failure |
| Paging.CollectPartial | api/google/sync/contacts.js:131 | a tolerated non-ok status ends the listing with the first `cap` items of the pages before it |
| Paging.CollectStopReason | api/google/sync/calendar.js:140-142 | a listing that ends below the cap and the guard ended on a missing token or a tolerated status |
| Paging.AppendPage | api/google/sync/calendar.js:135-139 | appending a page stops once `cap` items are held: the first `cap` of the old items plus the page's |
| Paging.FullPage | api/google/sync/calendar.js:138 | once the cap is reached inside a page, the rest of the page changes nothing |
| Paging.Paginate | api/google/sync/calendar.js:107-145 | the `while (guard < 5)` loop yields exactly the listing `Collect` defines: result and tokens sent |
| Reconciler.Extend | api/google/sync/calendar.js:190-221 | one more decision adds one to `created` only for a create, to `skipped` only for a skip or a non-ok create, and adds its key to the known set only for a create |
| Reconciler.Rule | api/google/sync/calendar.js:190-221 | skipped as empty exactly for an empty key; a create request exactly for a non-empty key not yet known; created exactly when that request is answered ok, failed when it is answered non-ok, aborted when it throws |
| Reconciler.DecisionAt | api/google/sync/calendar.js:187-222 | the i-th decision follows the rule, given the keys known before it and the answer to its own create request |
| Reconciler.KnownIsUnion | api/google/sync/calendar.js:216-218 | the final key set is the initial one united with the keys created in the run |
| Reconciler.NoDuplicateCreation | api/google/sync/calendar.js:190-218 | every create request carries a non-empty key absent from the initial set and different from every earlier created key |
| Reconciler.FirstSeenWins | api/google/sync/calendar.js:194-218 | after a record is created, every later record with its key is skipped as known |
| Reconciler.CappedCount | api/google/sync/calendar.js:222 | a finished run creates at most 200 records |
| Reconciler.CountsAddUp | api/google/sync/calendar.js:185-222 | created + skipped + aborted equals the number of records reached |
| Reconciler.AbortsOnlyLast | api/google/sync/calendar.js:205-222 | in a finished run only the last record can be aborted, so created + skipped misses at most that one |
| Reconciler.Reconcile | api/google/sync/calendar.js:185-223 | the loop's decisions follow the rule record by record and stop at the end, a create request that throws, or the 200th create; created = the creates ≤ 200, skipped = the skips, created + skipped ≤ reached ≤ source count, and the final key set is the one the decisions build |
| Reconciler.Payloads | api/google/sync/calendar.js:198-215 | one create body per create request sent |
| Reconciler.PayloadsAt | api/google/sync/calendar.js:198-215 | the body of the n-th create request sent is built from the record that request was sent for |
| Reconciler.Report | api/google/sync/calendar.js:224-233 | no report exactly when the last create request threw; otherwise the counts with the two list lengths; the same for contacts.js:241-251 |
| Reconciler.ReportCounts | api/google/sync/calendar.js:185-233 | a finished run reports status 200 with created + skipped equal to the records reached and at most 200 created, or status 500 when its last create threw |
| CalendarSync.EventKey | api/google/sync/calendar.js:176-180 | the key is never empty and contains a bar |
| CalendarSync.SummaryText | api/google/sync/calendar.js:178 | empty exactly when the summary is missing or empty; otherwise the summary |
| CalendarSync.StartText | api/google/sync/calendar.js:177 | a non-empty `dateTime` wins over `date`; empty exactly when there is no start or both are empty |
| CalendarSync.KeyDecodes | api/google/sync/calendar.js:176-180 | for a summary without bar, the first bar splits the key back into summary and start |
| CalendarSync.SameKey | api/google/sync/calendar.js:176-180 | events whose titles have no bar share a key exactly when they share title and start |
| CalendarSync.KeyCollision | api/google/sync/calendar.js:176-180 | a bar in a title lets two different events collide |
| CalendarSync.EventKeys | api/google/sync/calendar.js:189 | one key per event, in order |
| CalendarSync.NoEmptyKeySkip | api/google/sync/calendar.js:190-193 | the empty-key branch never applies to an event |
| CalendarSync.BodyOf | api/google/sync/calendar.js:198-204 | the body carries the source event's summary, description, start, end and location: listed back as it was sent, it is the source event without its id, and so has the source event's key |
| CalendarSync.BodyIgnoresId | api/google/sync/calendar.js:198-204 | the body never depends on the source event's id |
| CalendarSync.Writable | api/google/sync/calendar.js:96-103 | an id is kept exactly when some entry with that id is owner or writer and non-empty |
| CalendarSync.WritableAppend | api/google/sync/calendar.js:96-103 | the filter keeps list order: the ids of two lists in a row are the ids of each, in a row |
| CalendarSync.CalendarIds | api/google/sync/calendar.js:89-105 | ok exactly when the list request returns a page; then non-empty, with no empty id: the writable ids in list order, or exactly `primary` when none is writable |
| CalendarSync.ListCalendarIds | api/google/sync/calendar.js:82-106 | the loop over the calendar list yields `CalendarIds` |
| CalendarSync.EventListingThrows | api/google/sync/calendar.js:111-132 | one to five requests per calendar; throws exactly when the last reply is not a page |
| CalendarSync.EventListingItems | api/google/sync/calendar.js:133-140 | at most 2000 events: the first 2000 of the pages read, concatenated in order |
| CalendarSync.ListEventsForCalendar | api/google/sync/calendar.js:107-145 | the listing of one calendar is the generic listing, strict, cap 2000, events kept as they are |
| CalendarSync.FlatPrefix | api/google/sync/calendar.js:149-157 | the events of fewer calendars are a prefix of the events of more |
| CalendarSync.LastCalendarFacts | api/google/sync/calendar.js:149-157 | the account loop stops at a calendar that throws, reaches 4000, or is the last, and every calendar before it listed |
| CalendarSync.GatherItems | api/google/sync/calendar.js:146-159 | at most 4000 events: the first 4000 of all calendars' events, calendar by calendar in list order |
| CalendarSync.GatherThrows | api/google/sync/calendar.js:147-157 | the account loop throws exactly when some calendar's listing throws before 4000 events are gathered |
| CalendarSync.AllEventsMeaning | api/google/sync/calendar.js:146-159 | an account's events: thrown exactly when the calendar list fails or a calendar fails before 4000; otherwise the first 4000 of all events |
| CalendarSync.FetchCalendar | api/google/sync/calendar.js:151 | the listing of the i-th calendar |
| CalendarSync.ListAllEvents | api/google/sync/calendar.js:146-159 | the account loop yields `AllEvents` |
| CalendarSync.DestinationKeys | api/google/sync/calendar.js:181-184 | the set holds exactly the keys of the destination's events |
| CalendarSync.SyncCalendar | api/google/sync/calendar.js:160-234 | 405 "Method not allowed" exactly for a non-POST; 500 "Missing Google OAuth env vars" without client id or secret; an uncaught exception when a cookie cannot be decoded or a credential is `null`; each 400 rung with its message; 502 "Failed to refresh access tokens" when an exchange is denied; tokens exchanged exactly when the checks pass; no report and no create without both tokens; 502 when a listing throws; otherwise the decisions follow the loop over the source keys against the destination keys, the bodies sent are those of the attempted events, and the report carries the counts and full list lengths |
| CalendarSync.RunCreatesOnlyNew | api/google/sync/calendar.js:181-223 | no event is posted whose key a destination event has or an earlier create used; at most 200 are created |
| CalendarSync.StandupIsCreated | api/google/sync/calendar.js:185-223 | one new event against an empty destination: created 1, skipped 0 |
| CalendarSync.StandupIsKnown | api/google/sync/calendar.js:185-223 | an event the destination has: created 0, skipped 1, no request |
| CalendarSync.StandupTwice | api/google/sync/calendar.js:185-223 | two events with one key against an empty destination: created 1, skipped 1 |
| ContactsSync.EmailsOf | api/google/sync/contacts.js:102-104 | one email per entry, each without capitals; empty exactly where the entry's value is missing or empty; an address already in lower case is kept as it is |
| ContactsSync.AsContact | api/google/sync/contacts.js:100-109 | a person is dropped exactly when it has no email entry; a kept one has exactly its lowercased emails and its display names |
| ContactsSync.ConnectionsThrows | api/google/sync/contacts.js:83-97 | one to five requests; throws exactly when the last reply is not a page |
| ContactsSync.ConnectionsItems | api/google/sync/contacts.js:99-112 | at most 1000 contacts, each with an email and all emails lowercased |
| ContactsSync.OtherContactsThrows | api/google/sync/contacts.js:122-131 | one to five requests; throws only on a failed request, never on a non-ok status |
| ContactsSync.OtherContactsItems | api/google/sync/contacts.js:133-146 | at most 2000 contacts, each with an email and all emails lowercased |
| ContactsSync.OtherContactsPartial | api/google/sync/contacts.js:131 | a non-ok page ends the list with the contacts of the pages before it |
| ContactsSync.ListConnections | api/google/sync/contacts.js:79-117 | the connections listing is the generic listing, strict, cap 1000 |
| ContactsSync.ListOtherContacts | api/google/sync/contacts.js:118-151 | the other-contacts listing is the generic listing, tolerant, cap 2000 |
| ContactsSync.FirstEmails | api/google/sync/contacts.js:209 | one first email per contact, "" for none, in order |
| ContactsSync.FirstEmail | api/google/sync/contacts.js:165 | "" exactly when there is no email or the first is ""; otherwise the first email, lowercase for a collected contact |
| ContactsSync.KeysOfMeaning | api/google/sync/contacts.js:165-168 | the `seen` set holds exactly the first emails of the kept contacts |
| ContactsSync.Dedup | api/google/sync/contacts.js:163-179 | the merge keeps no more contacts than it reads |
| ContactsSync.DedupDistinct | api/google/sync/contacts.js:163-179 | kept first emails are non-empty and pairwise distinct |
| ContactsSync.DedupFirstSeen | api/google/sync/contacts.js:163-179 | a non-empty email is kept exactly when some contact has it first, and the kept contact is the first such |
| ContactsSync.DedupOrder | api/google/sync/contacts.js:163-179 | the kept contacts keep their relative order |
| ContactsSync.DedupAppend | api/google/sync/contacts.js:163-179 | base entries come first: merging base and extra starts with the merge of base, and everything after comes from extra |
| ContactsSync.MergeLimit | api/google/sync/contacts.js:171-179 | at least 2000 and above the merged base's size; exactly 2000 when the merged base has fewer |
| ContactsSync.Merged | api/google/sync/contacts.js:152-181 | an empty extra list returns base as it is; otherwise a prefix of the merge of base and extra, no longer than the limit, and the whole merge when it is shorter than the limit |
| ContactsSync.MergedFacts | api/google/sync/contacts.js:152-181 | an empty extra list returns base as it is; otherwise a prefix of the merge with non-empty distinct first-seen emails, merged base first, the whole merge when shorter than the limit, at most 2000 when base has fewer |
| ContactsSync.MergeBase | api/google/sync/contacts.js:161-170 | the base loop yields the merge of base and its `seen` set |
| ContactsSync.MergeContacts | api/google/sync/contacts.js:160-181 | the merge loops yield `Merged` |
| ContactsSync.MergeStops | api/google/sync/contacts.js:178 | the push that reaches 2000 ends the merge with all it will hold |
| ContactsSync.AllContactsFacts | api/google/sync/contacts.js:152-181 | an account's contacts throw exactly when the connections throw, and number at most 2000 |
| ContactsSync.ListAllContacts | api/google/sync/contacts.js:152-181 | the two listings and the merge yield `AllContacts` |
| ContactsSync.EmailSetMeaning | api/google/sync/contacts.js:198-204 | the destination set holds exactly the non-empty emails of the destination contacts, first or not |
| ContactsSync.DestinationEmails | api/google/sync/contacts.js:198-204 | the nested loops yield that set |
| ContactsSync.BodyOf | api/google/sync/contacts.js:218-221 | exactly one email, the first; one name, the first, when there is a name, and none otherwise |
| ContactsSync.CreatedIsKnown | api/google/sync/contacts.js:218-221 | a created contact, listed back, has the first email it was matched by |
| ContactsSync.SyncContacts | api/google/sync/contacts.js:182-252 | as for the calendar handler, each early response included, with first emails as keys against every destination email |
| ContactsSync.RunCreatesOnlyNew | api/google/sync/contacts.js:205-240 | no contact is posted whose first email any destination contact has or an earlier create used; at most 200 are created |

## Left out

- Network I/O: the shapes of `fetch`, the URLs, query parameters and headers. Each endpoint is an oracle of answers instead, and every remote call is awaited in order.
- The event time window `Date.now()` ± 365 days (calendar.js lines 79-81): it depends on the clock and on date formatting, and only filters what the endpoint returns.
- `decodeURIComponent`, `Buffer.from(..., 'base64url')` and `JSON.parse`: uninterpreted functions passed in as parameters.
- Text.ToLower: only ASCII capitals are lowered. Unicode case mapping is not modelled.
- The `detail` text of the 502 listing failure, and the status and body text inside the thrown `Error`s: only the fact that a listing threw is modelled.
- JavaScript's difference between `undefined`, `null` and "": an absent field is `None` or "" wherever the source treats them alike.
- The access tokens' use as bearer headers: a grant is modelled, the header is not.
- The calendar list's `nextPageToken`: the source sends one request and ignores it, and so does the model.
- Concurrency: the handlers await every call in sequence.
- SyncCalendar, SyncContacts: that no listing is requested after a refused admission is not stated. The listing oracles are values, so only the absence of decisions, bodies and report is observable.
- ContactsSync.MergeLimit: the extra loop checks its cap only after a push, so a merged base of 2000 or more would still take one extra contact. Connections hold at most 1000, so this never happens. It is modelled as written.
- ContactsSync.MergedFacts: the 2000 bound is stated for a base list below 2000 entries, the only case the handler can reach.
- CalendarSync.BodyOf, CalendarSync.Stored, ContactsSync.StoredPerson, ContactsSync.CreatedIsKnown: the destination is assumed to list a created record back with the fields it was sent. A real destination may normalise them (the Calendar API may, for instance, return `start.dateTime` in another time zone), and then the next run would not recognise the record.
- Cookies.Jar, Cookies.JarNames: the cookie map is a map from names to values, and a JavaScript object literal is not quite one. Assigning a string to `__proto__` is ignored, so a cookie named `__proto__` is dropped by the source (its value is still decoded) but kept by the model. Only `g_src` and `g_dest` are read, so no response depends on it.
- The other files of the repository (OAuth callbacks, the proxy, the dashboard pages and the maps stub) are not part of this model.
