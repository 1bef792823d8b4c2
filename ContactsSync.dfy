/**
 * The contacts sync handler: list each account's connections and "other contacts", merge them
 * on first email, and create in the destination every source contact whose first email the
 * destination does not know yet.
 */
module ContactsSync {
  import opened Base
  import opened Cookies
  import opened Gate
  import opened Paging
  import opened Reconciler
  import Text

  const ConnectionsCap := 1000
  const OtherContactsCap := 2000
  const MergedCap := 2000
  const ListFailed := "Failed to list contacts"

  /**
   * A person as the People API returns it: the `value` of each entry of `emailAddresses` and
   * the `displayName` of each entry of `names`, `None` where absent.
   */
  datatype Person = Person(emailValues: seq<Option<string>>, displayNames: seq<Option<string>>)

  /** A collected contact: lowercased emails and display names, in the provider's order. */
  datatype Contact = Contact(emails: seq<string>, names: seq<string>)

  /** The create body: at most one name and exactly one email. */
  datatype ContactBody = ContactBody(names: seq<string>, emailAddresses: seq<string>)

  /** One account's side of the People API: replies to the connections and other-contacts pages. */
  datatype ContactsAccount = ContactsAccount(connections: seq<Reply<Person>>, otherContacts: seq<Reply<Person>>)

  predicate WellFormed(c: Contact)
  {
    c.emails != [] && forall k :: 0 <= k < |c.emails| ==> Text.IsLower(c.emails[k])
  }

  // ----- one person ----------------------------------------------------------------------------

  /** `(e.value || '').toLowerCase()` for each email entry. */
  function EmailsOf(p: Person): (es: seq<string>)
    ensures |es| == |p.emailValues|
    ensures forall k :: 0 <= k < |es| ==> es[k] == Text.ToLower(OrEmpty(p.emailValues[k]))
    // lowercased, empty exactly where the entry is, and a lowercase address is kept as it is
    ensures forall k :: 0 <= k < |es| ==> Text.IsLower(es[k])
    ensures forall k :: 0 <= k < |es| ==> (es[k] == [] <==> OrEmpty(p.emailValues[k]) == [])
    ensures forall k :: 0 <= k < |es| && Text.IsLower(OrEmpty(p.emailValues[k])) ==> es[k] == OrEmpty(p.emailValues[k])
  {
    seq(|p.emailValues|, k requires 0 <= k < |p.emailValues| => Text.ToLower(OrEmpty(p.emailValues[k])))
  }

  /** `n.displayName || ''` for each name entry. */
  function NamesOf(p: Person): seq<string>
  {
    seq(|p.displayNames|, k requires 0 <= k < |p.displayNames| => OrEmpty(p.displayNames[k]))
  }

  /** A person becomes a contact exactly when it has an email entry. */
  function AsContact(p: Person): (c: Option<Contact>)
    ensures c.None? <==> p.emailValues == []
    ensures c.Some? ==> WellFormed(c.value) && |c.value.emails| == |p.emailValues| && |c.value.names| == |p.displayNames|
    ensures c.Some? ==> c.value.emails == EmailsOf(p) && c.value.names == NamesOf(p)
  {
    var es := EmailsOf(p);
    if es == [] then None else Some(Contact(es, NamesOf(p)))
  }

  lemma {:induction false} KeptWellFormed(items: seq<Person>)
    ensures forall k :: 0 <= k < |Kept(items, AsContact)| ==> WellFormed(Kept(items, AsContact)[k])
  {
    if items != [] {
      KeptWellFormed(items[..|items| - 1]);
    }
  }

  lemma {:induction false} GatheredWellFormed(replies: seq<Reply<Person>>, n: nat)
    ensures forall k :: 0 <= k < |Gathered(replies, AsContact, n)| ==> WellFormed(Gathered(replies, AsContact, n)[k])
  {
    if n > 0 {
      GatheredWellFormed(replies, n - 1);
      KeptWellFormed(PageItems(ReplyAt(replies, n - 1)));
    }
  }

  // ----- the two listings ----------------------------------------------------------------------

  function ConnectionsListing(replies: seq<Reply<Person>>): Listing<Contact>
  {
    Collect(replies, AsContact, ConnectionsCap, true)
  }

  function OtherContactsListing(replies: seq<Reply<Person>>): Listing<Contact>
  {
    Collect(replies, AsContact, OtherContactsCap, false)
  }

  /** The connections listing sends one to five requests and throws exactly when its last reply is not a page. */
  lemma ConnectionsThrows(replies: seq<Reply<Person>>)
    ensures var l := ConnectionsListing(replies);
      && 1 <= |l.requests| <= MaxPages
      && (l.result.Thrown? <==> !ReplyAt(replies, |l.requests| - 1).Page?)
  {
    CollectRequests(replies, AsContact, ConnectionsCap, true);
    CollectThrows(replies, AsContact, ConnectionsCap, true);
  }

  /** The connections: at most 1000 contacts, each with an email and every email lowercased. */
  lemma ConnectionsItems(replies: seq<Reply<Person>>)
    ensures var l := ConnectionsListing(replies);
      && (l.result.Ok? ==> |l.result.value| <= ConnectionsCap)
      && (l.result.Ok? ==> forall k :: 0 <= k < |l.result.value| ==> WellFormed(l.result.value[k]))
  {
    var l := ConnectionsListing(replies);
    CollectItems(replies, AsContact, ConnectionsCap, true);
    GatheredWellFormed(replies, |l.requests|);
  }

  /** The other-contacts listing sends one to five requests and throws only when a request fails. */
  lemma OtherContactsThrows(replies: seq<Reply<Person>>)
    ensures var l := OtherContactsListing(replies);
      && 1 <= |l.requests| <= MaxPages
      && (l.result.Thrown? <==> ReplyAt(replies, |l.requests| - 1).NetworkError?)
  {
    CollectRequests(replies, AsContact, OtherContactsCap, false);
    CollectThrows(replies, AsContact, OtherContactsCap, false);
  }

  /** The other contacts: at most 2000, each with an email and every email lowercased. */
  lemma OtherContactsItems(replies: seq<Reply<Person>>)
    ensures var l := OtherContactsListing(replies);
      && (l.result.Ok? ==> |l.result.value| <= OtherContactsCap)
      && (l.result.Ok? ==> forall k :: 0 <= k < |l.result.value| ==> WellFormed(l.result.value[k]))
  {
    var l := OtherContactsListing(replies);
    CollectItems(replies, AsContact, OtherContactsCap, false);
    GatheredWellFormed(replies, |l.requests|);
  }

  /** A non-ok other-contacts page ends the listing with the contacts of the pages before it. */
  lemma OtherContactsPartial(replies: seq<Reply<Person>>)
    ensures var l := OtherContactsListing(replies); var n := |l.requests| - 1;
      ReplyAt(replies, n).HttpError? ==> l.result == Ok(Take(Gathered(replies, AsContact, n), OtherContactsCap))
  {
    CollectPartial(replies, AsContact, OtherContactsCap, false);
  }

  /** `listConnections`: up to five pages, at most 1000 contacts; a non-ok page throws. */
  method ListConnections(replies: seq<Reply<Person>>) returns (contacts: Result<seq<Contact>>, requests: seq<string>)
    ensures Listing(contacts, requests) == ConnectionsListing(replies)
  {
    contacts, requests := Paginate(replies, AsContact, ConnectionsCap, true);
  }

  /** `listOtherContacts`: up to five pages, at most 2000 contacts; a non-ok page ends the listing early. */
  method ListOtherContacts(replies: seq<Reply<Person>>) returns (contacts: Result<seq<Contact>>, requests: seq<string>)
    ensures Listing(contacts, requests) == OtherContactsListing(replies)
  {
    contacts, requests := Paginate(replies, AsContact, OtherContactsCap, false);
  }

  // ----- merging on first email ----------------------------------------------------------------

  /** `(c.emails && c.emails[0]) || ''`. */
  function FirstEmail(c: Contact): (e: string)
    ensures e == [] <==> c.emails == [] || c.emails[0] == []
    ensures e != [] ==> e == c.emails[0]
    ensures WellFormed(c) ==> e == c.emails[0] && Text.IsLower(e)
  {
    if c.emails == [] then [] else c.emails[0]
  }

  /** The first emails of a list of contacts. */
  function FirstEmails(cs: seq<Contact>): (ks: seq<string>)
    ensures |ks| == |cs|
    ensures forall i :: 0 <= i < |cs| ==> ks[i] == FirstEmail(cs[i])
  {
    if cs == [] then [] else FirstEmails(cs[..|cs| - 1]) + [FirstEmail(cs[|cs| - 1])]
  }

  /** The set of first emails of a list of contacts. */
  function KeysOf(cs: seq<Contact>): set<string>
  {
    if cs == [] then {} else KeysOf(cs[..|cs| - 1]) + {FirstEmail(cs[|cs| - 1])}
  }

  lemma {:induction false} KeysOfMeaning(cs: seq<Contact>)
    ensures forall k :: k in KeysOf(cs) <==> exists i :: 0 <= i < |cs| && FirstEmail(cs[i]) == k
  {
    if cs != [] {
      var init := cs[..|cs| - 1];
      KeysOfMeaning(init);
      assert forall i :: 0 <= i < |init| ==> init[i] == cs[i];
    }
  }

  /**
   * The contacts the merge loop keeps from `cs`: each contact with a non-empty first email not
   * already kept, in order.
   */
  function Dedup(cs: seq<Contact>): (d: seq<Contact>)
    ensures |d| <= |cs|
  {
    if cs == [] then []
    else
      var d := Dedup(cs[..|cs| - 1]);
      var c := cs[|cs| - 1];
      if FirstEmail(c) == [] || FirstEmail(c) in KeysOf(d) then d else d + [c]
  }

  /** The kept contacts have non-empty, pairwise distinct first emails. */
  lemma {:induction false} DedupDistinct(cs: seq<Contact>)
    ensures forall i :: 0 <= i < |Dedup(cs)| ==> FirstEmail(Dedup(cs)[i]) != []
    ensures forall i, j :: 0 <= i < j < |Dedup(cs)| ==> FirstEmail(Dedup(cs)[i]) != FirstEmail(Dedup(cs)[j])
  {
    if cs != [] {
      var d := Dedup(cs[..|cs| - 1]);
      var c := cs[|cs| - 1];
      DedupDistinct(cs[..|cs| - 1]);
      if !(FirstEmail(c) == [] || FirstEmail(c) in KeysOf(d)) {
        var e := d + [c];
        assert Dedup(cs) == e;
        KeysOfMeaning(d);
        forall i | 0 <= i < |e| ensures FirstEmail(e[i]) != [] {
          if i < |d| {
            assert e[i] == d[i];
          }
        }
        forall i, j | 0 <= i < j < |e| ensures FirstEmail(e[i]) != FirstEmail(e[j]) {
          assert e[i] == d[i];
          if j < |d| {
            assert e[j] == d[j];
          } else {
            assert e[j] == c;
          }
        }
      }
    }
  }

  /** The first contact of `cs` with first email `key`, if any. */
  function FirstWith(cs: seq<Contact>, key: string): Option<Contact>
  {
    if cs == [] then None
    else
      var earlier := FirstWith(cs[..|cs| - 1], key);
      if earlier.Some? then earlier
      else if FirstEmail(cs[|cs| - 1]) == key then Some(cs[|cs| - 1])
      else None
  }

  /**
   * First seen wins, and nothing is lost: a non-empty email is a kept first email exactly when
   * some contact has it first, and the kept contact is the first such one.
   */
  lemma {:induction false} DedupFirstSeen(cs: seq<Contact>)
    ensures forall k :: k in KeysOf(Dedup(cs)) <==> k != [] && FirstWith(cs, k).Some?
    ensures forall i :: 0 <= i < |Dedup(cs)| ==> FirstWith(cs, FirstEmail(Dedup(cs)[i])) == Some(Dedup(cs)[i])
  {
    if cs != [] {
      var init := cs[..|cs| - 1];
      var d := Dedup(init);
      var c := cs[|cs| - 1];
      DedupFirstSeen(init);
      DedupDistinct(init);
      KeysOfMeaning(d);
      KeysOfMeaning(Dedup(cs));
      if !(FirstEmail(c) == [] || FirstEmail(c) in KeysOf(d)) {
        forall i | 0 <= i < |Dedup(cs)|
          ensures FirstWith(cs, FirstEmail(Dedup(cs)[i])) == Some(Dedup(cs)[i])
        {
          if i < |d| {
            assert Dedup(cs)[i] == d[i];
          }
        }
      }
    }
  }

  /** `a` is a subsequence of `b`: its elements occur in `b` in the same order. */
  predicate IsSubsequence(a: seq<Contact>, b: seq<Contact>)
  {
    if a == [] then true
    else if b == [] then false
    else if a[|a| - 1] == b[|b| - 1] then IsSubsequence(a[..|a| - 1], b[..|b| - 1])
    else IsSubsequence(a, b[..|b| - 1])
  }

  lemma {:induction false} SubsequenceDropLast(a: seq<Contact>, b: seq<Contact>)
    requires a != [] && IsSubsequence(a, b)
    decreases |b|, 1
    ensures IsSubsequence(a[..|a| - 1], b)
  {
    var a' := a[..|a| - 1];
    if b != [] && a[|a| - 1] != b[|b| - 1] {
      SubsequenceDropLast(a, b[..|b| - 1]);
      SubsequenceExtend(a', b[..|b| - 1], b[|b| - 1]);
      assert b[..|b| - 1] + [b[|b| - 1]] == b;
    } else if b != [] {
      SubsequenceExtend(a', b[..|b| - 1], b[|b| - 1]);
      assert b[..|b| - 1] + [b[|b| - 1]] == b;
    }
  }

  lemma {:induction false} SubsequenceExtend(a: seq<Contact>, b: seq<Contact>, x: Contact)
    requires IsSubsequence(a, b)
    decreases |b| + 1, 0
    ensures IsSubsequence(a, b + [x])
  {
    assert (b + [x])[..|b|] == b;
    if a != [] && a[|a| - 1] == x {
      SubsequenceDropLast(a, b);
    }
  }

  /** The merge keeps the original relative order. */
  lemma {:induction false} DedupOrder(cs: seq<Contact>)
    ensures IsSubsequence(Dedup(cs), cs)
  {
    if cs != [] {
      var init := cs[..|cs| - 1];
      var d := Dedup(init);
      DedupOrder(init);
      if Dedup(cs) == d {
        SubsequenceExtend(d, init, cs[|cs| - 1]);
        assert init + [cs[|cs| - 1]] == cs;
      } else {
        assert Dedup(cs)[..|Dedup(cs)| - 1] == d;
      }
    }
  }

  /**
   * Base entries come before extra entries: merging `xs + ys` keeps what merging `xs` keeps, as
   * a prefix, and every later entry comes from `ys`.
   */
  lemma {:induction false} DedupAppend(xs: seq<Contact>, ys: seq<Contact>)
    ensures Dedup(xs) <= Dedup(xs + ys)
    ensures forall i :: |Dedup(xs)| <= i < |Dedup(xs + ys)| ==> Dedup(xs + ys)[i] in ys
  {
    if ys == [] {
      assert xs + ys == xs;
    } else {
      var init := ys[..|ys| - 1];
      DedupAppend(xs, init);
      assert (xs + ys)[..|xs + ys| - 1] == xs + init;
      assert forall y :: y in init ==> y in ys;
    }
  }

  /**
   * How far the extra loop may grow the merge: its cap is checked only after a push, so a base
   * part that alone reaches 2000 still takes one extra contact.
   */
  function MergeLimit(base: seq<Contact>): (n: nat)
    ensures n >= MergedCap && n > |Dedup(base)|
    ensures n == MergedCap <==> |Dedup(base)| < MergedCap
  {
    if |Dedup(base)| < MergedCap then MergedCap else |Dedup(base)| + 1
  }

  /** What `listAllContacts` returns for the two lists. */
  function Merged(base: seq<Contact>, extra: seq<Contact>): (m: seq<Contact>)
    ensures extra == [] ==> m == base
    ensures extra != [] ==> m <= Dedup(base + extra) && |m| <= MergeLimit(base)
    ensures extra != [] && |m| < MergeLimit(base) ==> m == Dedup(base + extra)
  {
    if extra == [] then base else Take(Dedup(base + extra), MergeLimit(base))
  }

  /**
   * The merge: an empty extra list leaves the base list as it is, duplicates included; otherwise
   * the first emails are non-empty and distinct, the merged base comes first, each kept contact
   * is the first with its email, and the length is at most 2000 when the base has fewer.
   */
  lemma MergedFacts(base: seq<Contact>, extra: seq<Contact>)
    ensures extra == [] ==> Merged(base, extra) == base
    ensures extra != [] ==> var m := Merged(base, extra);
      && m <= Dedup(base + extra)
      && Dedup(base) <= m
      && (forall i :: 0 <= i < |m| ==> FirstEmail(m[i]) != [])
      && (forall i, j :: 0 <= i < j < |m| ==> FirstEmail(m[i]) != FirstEmail(m[j]))
      && (forall i :: 0 <= i < |m| ==> FirstWith(base + extra, FirstEmail(m[i])) == Some(m[i]))
      && (|base| < MergedCap ==> |m| <= MergedCap)
    // nothing is dropped below the limit: a merge shorter than it is the whole deduplicated list
    ensures extra != [] && |Merged(base, extra)| < MergeLimit(base) ==> Merged(base, extra) == Dedup(base + extra)
  {
    if extra != [] {
      var d := Dedup(base + extra);
      var m := Merged(base, extra);
      DedupAppend(base, extra);
      DedupDistinct(base + extra);
      DedupFirstSeen(base + extra);
      assert m == d[..|m|];
      forall i | 0 <= i < |m| ensures FirstWith(base + extra, FirstEmail(m[i])) == Some(m[i]) {
        assert m[i] == d[i];
      }
    }
  }

  /** One more contact for the merge loop. */
  lemma DedupSnoc(xs: seq<Contact>, c: Contact)
    ensures KeysOf(Dedup(xs) + [c]) == KeysOf(Dedup(xs)) + {FirstEmail(c)}
    ensures Dedup(xs + [c]) ==
      if FirstEmail(c) == [] || FirstEmail(c) in KeysOf(Dedup(xs)) then Dedup(xs) else Dedup(xs) + [c]
  {
    assert (xs + [c])[..|xs|] == xs;
    assert (Dedup(xs) + [c])[..|Dedup(xs)|] == Dedup(xs);
  }

  /** The merge loop over the base list, with the `seen` set it builds. */
  method MergeBase(base: seq<Contact>) returns (out: seq<Contact>, seen: set<string>)
    ensures out == Dedup(base) && seen == KeysOf(out)
  {
    seen := {};
    out := [];
    var i := 0;
    while i < |base|
      invariant i <= |base|
      invariant out == Dedup(base[..i]) && seen == KeysOf(out)
    {
      assert base[..i + 1] == base[..i] + [base[i]];
      DedupSnoc(base[..i], base[i]);
      var key := FirstEmail(base[i]);
      if key != [] && key !in seen {
        seen := seen + {key};
        out := out + [base[i]];
      }
      i := i + 1;
    }
    assert base[..i] == base;
  }

  /** The merge of the two lists, over `base` and then `extra`. */
  method MergeContacts(base: seq<Contact>, extra: seq<Contact>) returns (out: seq<Contact>)
    ensures out == Merged(base, extra)
  {
    if extra == [] {
      return base;
    }
    var seen;
    out, seen := MergeBase(base);
    ghost var limit := MergeLimit(base);
    ghost var read := base;
    var j := 0;
    while j < |extra|
      invariant j <= |extra| && read == base + extra[..j]
      invariant out == Dedup(read) && seen == KeysOf(out)
      invariant |out| < limit
    {
      ghost var before := out;
      DedupSnoc(read, extra[j]);
      var key := FirstEmail(extra[j]);
      if key != [] && key !in seen {
        seen := seen + {key};
        out := out + [extra[j]];
        if |out| >= MergedCap {
          PrefixSnoc(base, extra, j);
          MergeStops(base, extra, j, out);
          return;
        }
      }
      PrefixSnoc(base, extra, j);
      read := read + [extra[j]];
      j := j + 1;
    }
    assert read == base + extra;
  }

  /** The extra loop stops at the push that reaches 2000: what it has is the whole merge. */
  lemma MergeStops(base: seq<Contact>, extra: seq<Contact>, j: nat, out: seq<Contact>)
    requires j < |extra| && out == Dedup(base + extra[..j + 1])
    requires |out| >= MergedCap && |out| == |Dedup(base + extra[..j])| + 1 <= MergeLimit(base)
    ensures out == Merged(base, extra)
  {
    DedupAppend(base + extra[..j + 1], extra[j + 1..]);
    PrefixRest(base, extra, j + 1);
    DedupAppend(base, extra[..j]);
  }

  /** What `listAllContacts` returns for one account. */
  function AllContacts(account: ContactsAccount): Result<seq<Contact>>
  {
    var base := ConnectionsListing(account.connections).result;
    var extra := OtherContactsListing(account.otherContacts).result;
    if base.Thrown? then Thrown
    else Ok(Merged(base.value, if extra.Ok? then extra.value else []))
  }

  /** An account's contacts: at most 2000, and `Thrown` exactly when the connections listing throws. */
  lemma AllContactsFacts(account: ContactsAccount)
    ensures AllContacts(account).Thrown? <==> ConnectionsListing(account.connections).result.Thrown?
    ensures AllContacts(account).Ok? ==> |AllContacts(account).value| <= MergedCap
  {
    ConnectionsItems(account.connections);
    var base := ConnectionsListing(account.connections).result;
    var extra := OtherContactsListing(account.otherContacts).result;
    if base.Ok? {
      MergedFacts(base.value, if extra.Ok? then extra.value else []);
    }
  }

  /** `listAllContacts`: the connections, merged with the other contacts when those list any. */
  method ListAllContacts(account: ContactsAccount) returns (r: Result<seq<Contact>>)
    ensures r == AllContacts(account)
  {
    var base, baseRequests := ListConnections(account.connections);
    if base.Thrown? {
      return Thrown;
    }
    var extra, extraRequests := ListOtherContacts(account.otherContacts);
    var others := if extra.Ok? then extra.value else [];
    var merged := MergeContacts(base.value, others);
    return Ok(merged);
  }

  // ----- the handler ---------------------------------------------------------------------------

  /** The non-empty emails among `es`. */
  function NonEmpty(es: seq<string>): set<string>
  {
    set k | 0 <= k < |es| && es[k] != [] :: es[k]
  }

  /** Every non-empty email of every contact. */
  function EmailSet(cs: seq<Contact>): set<string>
  {
    if cs == [] then {} else EmailSet(cs[..|cs| - 1]) + NonEmpty(cs[|cs| - 1].emails)
  }

  lemma {:induction false} EmailSetMeaning(cs: seq<Contact>)
    ensures forall e :: e in EmailSet(cs) <==> e != [] && exists i :: 0 <= i < |cs| && e in cs[i].emails
  {
    if cs != [] {
      var init := cs[..|cs| - 1];
      EmailSetMeaning(init);
      assert forall i :: 0 <= i < |init| ==> init[i] == cs[i];
    }
  }

  /** The loop that fills `destEmailSet`: every non-empty email of every destination contact, first or not. */
  method DestinationEmails(cs: seq<Contact>) returns (emails: set<string>)
    ensures emails == EmailSet(cs)
    ensures forall e :: e in emails <==> e != [] && exists i :: 0 <= i < |cs| && e in cs[i].emails
  {
    emails := {};
    var i := 0;
    while i < |cs|
      invariant i <= |cs|
      invariant emails == EmailSet(cs[..i])
    {
      assert cs[..i + 1][..i] == cs[..i];
      var es := cs[i].emails;
      var j := 0;
      while j < |es|
        invariant j <= |es|
        invariant emails == EmailSet(cs[..i]) + NonEmpty(es[..j])
      {
        assert NonEmpty(es[..j + 1]) == NonEmpty(es[..j]) + (if es[j] != [] then {es[j]} else {}) by {
          assert forall k :: 0 <= k < j ==> es[..j + 1][k] == es[..j][k];
        }
        if es[j] != [] {
          emails := emails + {es[j]};
        }
        j := j + 1;
      }
      assert es[..j] == es;
      i := i + 1;
    }
    assert cs[..i] == cs;
    EmailSetMeaning(cs);
  }

  /** The create body for a source contact: its first name, if any, and its first email. */
  function BodyOf(c: Contact): (b: ContactBody)
    ensures b.emailAddresses == [FirstEmail(c)]
    ensures |b.names| <= 1 && (b.names == [] <==> c.names == []) && (b.names != [] ==> b.names[0] == c.names[0])
  {
    ContactBody(if c.names != [] then [c.names[0]] else [], [FirstEmail(c)])
  }

  /** The person the destination lists after accepting a body, assumed to echo the fields it was sent. */
  function StoredPerson(b: ContactBody): Person
  {
    Person(seq(|b.emailAddresses|, k requires 0 <= k < |b.emailAddresses| => Some(b.emailAddresses[k])),
           seq(|b.names|, k requires 0 <= k < |b.names| => Some(b.names[k])))
  }

  /**
   * A created contact is recognised on the next run, if the destination lists it back as it was
   * sent: that listing gives a contact whose first email is the one the source contact was
   * matched by.
   */
  lemma CreatedIsKnown(c: Contact)
    requires WellFormed(c)
    ensures var listed := AsContact(StoredPerson(BodyOf(c)));
      listed.Some? && FirstEmail(listed.value) == FirstEmail(c)
  {
    Text.ToLowerKeeps(c.emails[0]);
  }

  /**
   * The contacts sync handler. Besides the response it yields the refresh tokens exchanged, the
   * decision taken for each source contact reached, and the create bodies sent.
   */
  method SyncContacts(req: Request, env: Env, decodeUri: UriDecoder, decodeCredential: CredentialDecoder,
                      sourceReply: TokenReply, destinationReply: TokenReply,
                      source: ContactsAccount, destination: ContactsAccount, creates: seq<CreateReply>)
    returns (resp: Response, exchanges: seq<string>, decisions: seq<Decision>, payloads: seq<ContactBody>)
    ensures (resp.ErrorResponse? && resp.status == 405) <==> req.httpMethod != "POST"
    ensures exchanges != [] <==> RefreshTokens(req, env, decodeUri, decodeCredential).Some?
    ensures req.httpMethod != "POST" ==> resp == ErrorResponse(405, MethodNotAllowed)
    ensures req.httpMethod == "POST" && !HasClient(env) ==> resp == ErrorResponse(500, MissingEnv)
    ensures JarThrows(req, env, decodeUri) ==> resp == Unhandled
    ensures Disconnected(req, env, decodeUri) ==> resp == ErrorResponse(400, NotConnected)
    ensures BadCredentials(req, env, decodeUri, decodeCredential) ==> resp == ErrorResponse(400, InvalidCredentials)
    ensures NullCredential(req, env, decodeUri, decodeCredential) ==> resp == Unhandled
    ensures NoRefreshToken(req, env, decodeUri, decodeCredential) ==> resp == ErrorResponse(400, MissingRefreshTokens)
    ensures RefreshTokens(req, env, decodeUri, decodeCredential).Some?
            && !Authorized(req, env, decodeUri, decodeCredential, sourceReply, destinationReply) ==>
      resp == ErrorResponse(502, RefreshFailed)
    ensures !Authorized(req, env, decodeUri, decodeCredential, sourceReply, destinationReply) ==>
      !resp.SyncReport? && decisions == [] && payloads == []
    ensures Authorized(req, env, decodeUri, decodeCredential, sourceReply, destinationReply) ==>
      if AllContacts(source).Thrown? || AllContacts(destination).Thrown? then
        resp == ErrorResponse(502, ListFailed) && decisions == [] && payloads == []
      else
        var src := AllContacts(source).value;
        var dest := AllContacts(destination).value;
        && Decided(FirstEmails(src), EmailSet(dest), creates, decisions)
        && Finished(FirstEmails(src), decisions)
        && payloads == Payloads(src, decisions, BodyOf)
        && resp == Report(decisions, |src|, |dest|)
  {
    decisions, payloads := [], [];
    var a;
    a, exchanges := Admit(req, env, decodeUri, decodeCredential, sourceReply, destinationReply);
    if !a.Admitted? {
      return Early(a), exchanges, decisions, payloads;
    }
    var src := ListAllContacts(source);
    if src.Thrown? {
      return ErrorResponse(502, ListFailed), exchanges, decisions, payloads;
    }
    var dest := ListAllContacts(destination);
    if dest.Thrown? {
      return ErrorResponse(502, ListFailed), exchanges, decisions, payloads;
    }
    var known := DestinationEmails(dest.value);
    var created, skipped, after;
    decisions, created, skipped, after := Reconcile(FirstEmails(src.value), known, creates);
    payloads := Payloads(src.value, decisions, BodyOf);
    resp := Report(decisions, |src.value|, |dest.value|);
  }

  /**
   * A run never posts a contact whose first email is any email of a destination contact, nor one
   * whose first email an earlier create of the run used; and it creates at most 200.
   */
  lemma RunCreatesOnlyNew(src: seq<Contact>, dest: seq<Contact>, creates: seq<CreateReply>, ds: seq<Decision>)
    requires Decided(FirstEmails(src), EmailSet(dest), creates, ds) && Finished(FirstEmails(src), ds)
    ensures forall i :: 0 <= i < |ds| && Attempted(ds[i]) ==> forall c :: c in dest ==> FirstEmail(src[i]) !in c.emails
    ensures forall i, j :: 0 <= j < i < |ds| && Attempted(ds[i]) && ds[j].Created? ==> FirstEmail(src[i]) != FirstEmail(src[j])
    ensures CountCreated(ds) <= CreateCap
  {
    NoDuplicateCreation(FirstEmails(src), EmailSet(dest), creates, ds);
    EmailSetMeaning(dest);
    forall i, c | 0 <= i < |ds| && Attempted(ds[i]) && c in dest
      ensures FirstEmail(src[i]) !in c.emails
    {
      var k :| 0 <= k < |dest| && dest[k] == c;
    }
    CappedCount(FirstEmails(src), ds);
  }
}
