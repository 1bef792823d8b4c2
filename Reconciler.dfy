/**
 * The create/skip loop both sync handlers end with. Each source record has an identity key;
 * a record is skipped when its key is empty or already known, and otherwise a create request
 * is sent for it. A successful create makes its key known at once, so a later source record
 * with the same key is skipped. The loop stops once `CreateCap` records have been created.
 */
module Reconciler {
  import Gate

  /** The create cap of both handlers (`if (created >= 200) break`). */
  const CreateCap := 200

  /**
   * The answer to one create request: an ok response, a non-ok response, or a `fetch` that
   * throws. Only the non-ok response is absorbed; the exception escapes the handler.
   */
  datatype CreateReply = Accepted | NotOk | Unreachable

  /** The answer to the k-th create request; the endpoint fails like the network past its last answer. */
  function CreateAt(replies: seq<CreateReply>, k: nat): (r: CreateReply)
    ensures k >= |replies| ==> r.Unreachable?
  {
    if k < |replies| then replies[k] else Unreachable
  }

  /** What the loop did with one source record. */
  datatype Decision =
    | SkippedEmpty   // empty key: counted as skipped, no request
    | SkippedKnown   // key already known: counted as skipped, no request
    | Created        // create request answered ok: counted as created, key becomes known
    | Failed         // create request answered non-ok: counted as skipped, nothing else changes
    | Aborted        // create request threw: the exception ends the handler

  predicate Attempted(d: Decision)
  {
    d.Created? || d.Failed? || d.Aborted?
  }

  /** The decision the loop takes for a record with key `key`, given the known keys and the reply. */
  function Rule(key: string, known: set<string>, reply: CreateReply): (d: Decision)
    ensures d == SkippedEmpty <==> key == []
    ensures Attempted(d) <==> key != [] && key !in known
    ensures d.Created? <==> Attempted(d) && reply.Accepted?
    ensures d.Failed? <==> Attempted(d) && reply.NotOk?
    ensures d.Aborted? <==> Attempted(d) && reply.Unreachable?
  {
    if key == [] then SkippedEmpty
    else if key in known then SkippedKnown
    else match reply
      case Accepted => Created
      case NotOk => Failed
      case Unreachable => Aborted
  }

  /** The number of create requests the decisions sent. */
  function Attempts(ds: seq<Decision>): nat
  {
    if ds == [] then 0 else Attempts(ds[..|ds| - 1]) + (if Attempted(ds[|ds| - 1]) then 1 else 0)
  }

  function CountCreated(ds: seq<Decision>): nat
  {
    if ds == [] then 0 else CountCreated(ds[..|ds| - 1]) + (if ds[|ds| - 1].Created? then 1 else 0)
  }

  function CountSkipped(ds: seq<Decision>): nat
  {
    if ds == [] then 0
    else CountSkipped(ds[..|ds| - 1]) + (if ds[|ds| - 1].Created? || ds[|ds| - 1].Aborted? then 0 else 1)
  }

  /** The keys known after the decisions: the initial keys, and the key of every created record. */
  function Known(initial: set<string>, keys: seq<string>, ds: seq<Decision>): set<string>
    requires |ds| <= |keys|
  {
    if ds == [] then initial
    else Known(initial, keys, ds[..|ds| - 1]) + (if ds[|ds| - 1].Created? then {keys[|ds| - 1]} else {})
  }

  /**
   * Every decision follows `Rule`, given the keys known before it and the reply to its own
   * request (the n-th request gets the n-th reply).
   */
  predicate Decided(keys: seq<string>, initial: set<string>, replies: seq<CreateReply>, ds: seq<Decision>)
  {
    && |ds| <= |keys|
    && (ds != [] ==>
          var init := ds[..|ds| - 1];
          && Decided(keys, initial, replies, init)
          && ds[|ds| - 1] == Rule(keys[|ds| - 1], Known(initial, keys, init), CreateAt(replies, Attempts(init))))
  }

  /**
   * The loop ran to its end: over every record, or up to a create request that threw, or up to the
   * create that reached the cap, and not beyond any of these.
   */
  predicate Finished(keys: seq<string>, ds: seq<Decision>)
  {
    && (|ds| == |keys| || (ds != [] && (ds[|ds| - 1].Aborted? || (ds[|ds| - 1].Created? && CountCreated(ds) == CreateCap))))
    && (forall i :: 0 <= i < |ds| - 1 ==> !ds[i].Aborted?)
    && (ds != [] ==> CountCreated(ds[..|ds| - 1]) < CreateCap)
  }

  lemma Snoc(ds: seq<Decision>, d: Decision)
    ensures (ds + [d])[..|ds|] == ds
  {
  }

  /** One more decision taken by `Rule` extends a run, and each count and the known keys by what it did. */
  lemma Extend(keys: seq<string>, initial: set<string>, replies: seq<CreateReply>, ds: seq<Decision>, d: Decision)
    requires Decided(keys, initial, replies, ds) && |ds| < |keys|
    requires d == Rule(keys[|ds|], Known(initial, keys, ds), CreateAt(replies, Attempts(ds)))
    ensures Decided(keys, initial, replies, ds + [d])
    ensures Attempts(ds + [d]) == Attempts(ds) + (if Attempted(d) then 1 else 0)
    ensures CountCreated(ds + [d]) == CountCreated(ds) + (if d.Created? then 1 else 0)
    ensures CountSkipped(ds + [d]) == CountSkipped(ds) + (if d.Created? || d.Aborted? then 0 else 1)
    ensures Known(initial, keys, ds + [d]) == Known(initial, keys, ds) + (if d.Created? then {keys[|ds|]} else {})
  {
    Snoc(ds, d);
  }

  lemma {:induction false} DecidedPrefix(keys: seq<string>, initial: set<string>, replies: seq<CreateReply>,
                                         ds: seq<Decision>, n: nat)
    requires Decided(keys, initial, replies, ds) && n <= |ds|
    ensures Decided(keys, initial, replies, ds[..n])
    decreases |ds| - n
  {
    if n < |ds| {
      var init := ds[..|ds| - 1];
      assert init[..n] == ds[..n];
      DecidedPrefix(keys, initial, replies, init, n);
    } else {
      assert ds[..n] == ds;
    }
  }

  /** Each decision of a run, stated at its own position: what `Decided` says record by record. */
  lemma DecisionAt(keys: seq<string>, initial: set<string>, replies: seq<CreateReply>, ds: seq<Decision>, i: nat)
    requires Decided(keys, initial, replies, ds) && i < |ds|
    ensures ds[i] == Rule(keys[i], Known(initial, keys, ds[..i]), CreateAt(replies, Attempts(ds[..i])))
  {
    DecidedPrefix(keys, initial, replies, ds, i + 1);
    var p := ds[..i + 1];
    assert p[..i] == ds[..i];
  }

  /** The created keys of a decision log. */
  function CreatedKeys(keys: seq<string>, ds: seq<Decision>): set<string>
    requires |ds| <= |keys|
  {
    set i | 0 <= i < |ds| && ds[i].Created? :: keys[i]
  }

  /** The final destination key set is the initial one united with the keys created in the run. */
  lemma {:induction false} KnownIsUnion(initial: set<string>, keys: seq<string>, ds: seq<Decision>)
    requires |ds| <= |keys|
    ensures Known(initial, keys, ds) == initial + CreatedKeys(keys, ds)
  {
    if ds != [] {
      var n := |ds| - 1;
      var init := ds[..n];
      KnownIsUnion(initial, keys, init);
      var last := if ds[n].Created? then {keys[n]} else {};
      assert CreatedKeys(keys, ds) == CreatedKeys(keys, init) + last by {
        forall k | k in CreatedKeys(keys, ds) ensures k in CreatedKeys(keys, init) + last {
          var i :| 0 <= i < |ds| && ds[i].Created? && keys[i] == k;
          if i < n { assert init[i].Created?; }
        }
        forall k | k in CreatedKeys(keys, init) ensures k in CreatedKeys(keys, ds) {
          var i :| 0 <= i < n && init[i].Created? && keys[i] == k;
          assert ds[i].Created?;
        }
      }
    }
  }

  /**
   * No duplicate creation: every create request carries a non-empty key that was neither in the
   * initial destination key set nor the key of an earlier created record; so no two created
   * records share a key.
   */
  lemma NoDuplicateCreation(keys: seq<string>, initial: set<string>, replies: seq<CreateReply>, ds: seq<Decision>)
    requires Decided(keys, initial, replies, ds)
    ensures forall i :: 0 <= i < |ds| && Attempted(ds[i]) ==> keys[i] != [] && keys[i] !in initial
    ensures forall i, j :: 0 <= j < i < |ds| && Attempted(ds[i]) && ds[j].Created? ==> keys[i] != keys[j]
  {
    forall i | 0 <= i < |ds| && Attempted(ds[i])
      ensures keys[i] != [] && keys[i] !in initial
    {
      DecisionAt(keys, initial, replies, ds, i);
      KnownIsUnion(initial, keys, ds[..i]);
    }
    forall i, j | 0 <= j < i < |ds| && Attempted(ds[i]) && ds[j].Created?
      ensures keys[i] != keys[j]
    {
      DecisionAt(keys, initial, replies, ds, i);
      KnownIsUnion(initial, keys, ds[..i]);
      assert ds[..i][j].Created?;
      assert keys[j] in CreatedKeys(keys, ds[..i]);
    }
  }

  /** A finished run creates at most `CreateCap` records. */
  lemma CappedCount(keys: seq<string>, ds: seq<Decision>)
    requires Finished(keys, ds)
    ensures CountCreated(ds) <= CreateCap
  {
  }

  /** First seen wins: once a record is created, every later record with its key is skipped as known. */
  lemma FirstSeenWins(keys: seq<string>, initial: set<string>, replies: seq<CreateReply>, ds: seq<Decision>, i: nat, j: nat)
    requires Decided(keys, initial, replies, ds)
    requires i < j < |ds| && ds[i].Created? && keys[j] == keys[i]
    ensures ds[j] == SkippedKnown
  {
    DecisionAt(keys, initial, replies, ds, i);
    DecisionAt(keys, initial, replies, ds, j);
    KnownIsUnion(initial, keys, ds[..j]);
    assert ds[..j][i].Created?;
    assert keys[i] in CreatedKeys(keys, ds[..j]);
  }

  /** The number of records whose create request threw. */
  function CountAborted(ds: seq<Decision>): nat
  {
    if ds == [] then 0 else CountAborted(ds[..|ds| - 1]) + (if ds[|ds| - 1].Aborted? then 1 else 0)
  }

  /**
   * The counters add up: every record the loop reached is counted once, as created or as
   * skipped, except a record whose create request threw.
   */
  lemma {:induction false} CountsAddUp(ds: seq<Decision>)
    ensures CountCreated(ds) + CountSkipped(ds) + CountAborted(ds) == |ds|
  {
    if ds != [] {
      CountsAddUp(ds[..|ds| - 1]);
    }
  }

  /** Decisions without a create request that threw count no aborted record. */
  lemma {:induction false} NoneAborted(ds: seq<Decision>)
    requires forall i :: 0 <= i < |ds| ==> !ds[i].Aborted?
    ensures CountAborted(ds) == 0
  {
    if ds != [] {
      var init := ds[..|ds| - 1];
      assert forall i :: 0 <= i < |init| ==> init[i] == ds[i];
      NoneAborted(init);
    }
  }

  /**
   * In a finished run only the last record can be aborted, so the counters of the report miss
   * at most that one record.
   */
  lemma AbortsOnlyLast(keys: seq<string>, ds: seq<Decision>)
    requires Finished(keys, ds)
    ensures CountAborted(ds) == if ds != [] && ds[|ds| - 1].Aborted? then 1 else 0
    ensures CountCreated(ds) + CountSkipped(ds) == |ds| - CountAborted(ds)
  {
    CountsAddUp(ds);
    if ds != [] {
      var init := ds[..|ds| - 1];
      assert forall i :: 0 <= i < |init| ==> init[i] == ds[i];
      NoneAborted(init);
    }
  }

  /** The bodies of the create requests sent, one per attempted record, in order. */
  function Payloads<R, B>(src: seq<R>, ds: seq<Decision>, body: R -> B): (p: seq<B>)
    requires |ds| <= |src|
    ensures |p| == Attempts(ds)
  {
    if ds == [] then []
    else Payloads(src, ds[..|ds| - 1], body) + (if Attempted(ds[|ds| - 1]) then [body(src[|ds| - 1])] else [])
  }

  /**
   * The bodies follow the create requests: the body of the n-th request sent is built from the
   * record that request was sent for.
   */
  lemma {:induction false} PayloadsAt<R, B>(src: seq<R>, ds: seq<Decision>, body: R -> B, i: nat)
    requires |ds| <= |src| && i < |ds| && Attempted(ds[i])
    ensures Attempts(ds[..i]) < |Payloads(src, ds, body)|
    ensures Payloads(src, ds, body)[Attempts(ds[..i])] == body(src[i])
  {
    var init := ds[..|ds| - 1];
    if i == |ds| - 1 {
      assert ds[..i] == init;
    } else {
      assert init[..i] == ds[..i];
      assert init[i] == ds[i];
      PayloadsAt(src, init, body, i);
    }
  }

  /** The response after reconciling: the counts, unless a create request threw. */
  function Report(ds: seq<Decision>, sourceCount: nat, destinationCount: nat): (r: Gate.Response)
    ensures r.SyncReport? || r.Unhandled?
    ensures r.Unhandled? <==> ds != [] && ds[|ds| - 1].Aborted?
    ensures r.SyncReport? ==> r.sourceCount == sourceCount && r.destinationCount == destinationCount
  {
    if ds != [] && ds[|ds| - 1].Aborted? then Gate.Unhandled
    else Gate.SyncReport(CountCreated(ds), CountSkipped(ds), sourceCount, destinationCount)
  }

  /**
   * The report of a finished run: status 200 with counts that cover every record reached and at
   * most `CreateCap` creates; or, when the last create request threw, status 500 and no counts.
   */
  lemma ReportCounts(keys: seq<string>, ds: seq<Decision>, sourceCount: nat, destinationCount: nat)
    requires Finished(keys, ds)
    ensures Report(ds, sourceCount, destinationCount).SyncReport? ==>
      && Gate.StatusOf(Report(ds, sourceCount, destinationCount)) == 200
      && Report(ds, sourceCount, destinationCount).created + Report(ds, sourceCount, destinationCount).skipped == |ds|
      && Report(ds, sourceCount, destinationCount).created <= CreateCap
    ensures Report(ds, sourceCount, destinationCount).Unhandled? ==>
      Gate.StatusOf(Report(ds, sourceCount, destinationCount)) == 500
  {
    AbortsOnlyLast(keys, ds);
  }

  /**
   * The create/skip loop. `decisions` records what happened to each record the loop reached;
   * `known` is the destination key set after the loop.
   */
  method Reconcile(keys: seq<string>, initial: set<string>, replies: seq<CreateReply>)
    returns (decisions: seq<Decision>, created: nat, skipped: nat, known: set<string>)
    ensures Decided(keys, initial, replies, decisions) && Finished(keys, decisions)
    ensures created == CountCreated(decisions) <= CreateCap
    ensures skipped == CountSkipped(decisions)
    ensures created + skipped <= |decisions| <= |keys|
    ensures known == Known(initial, keys, decisions)
  {
    decisions, created, skipped, known := [], 0, 0, initial;
    var attempts := 0;
    var i := 0;
    while i < |keys|
      invariant i == |decisions| <= |keys|
      invariant Decided(keys, initial, replies, decisions)
      invariant forall j :: 0 <= j < |decisions| ==> !decisions[j].Aborted?
      invariant attempts == Attempts(decisions)
      invariant created == CountCreated(decisions) < CreateCap
      invariant skipped == CountSkipped(decisions)
      invariant created + skipped == |decisions|
      invariant known == Known(initial, keys, decisions)
    {
      var key := keys[i];
      var d: Decision;
      if key == [] {
        d := SkippedEmpty;
        skipped := skipped + 1;
      } else if key in known {
        d := SkippedKnown;
        skipped := skipped + 1;
      } else {
        var reply := CreateAt(replies, attempts);
        attempts := attempts + 1;
        if reply.Unreachable? {
          d := Aborted;
        } else if reply.Accepted? {
          d := Created;
          created := created + 1;
          known := known + {key};
        } else {
          d := Failed;
          skipped := skipped + 1;
        }
      }
      Extend(keys, initial, replies, decisions, d);
      Snoc(decisions, d);
      decisions := decisions + [d];
      i := i + 1;
      if d.Aborted? || created >= CreateCap {
        return;
      }
    }
  }
}
