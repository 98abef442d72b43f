/**
 * `loadWebhooks`: reconciling the cached webhook list with the list the server
 * returns, and the create, update and delete events it dispatches.
 *
 * `Reconcile` follows the Java code step by step (a scan over the server's list
 * that mutates the cache and a snapshot of it, then a pass that deletes what is
 * left in the snapshot). `Kept`, `Fresh`, `Unmatched` and `ExpectedEvents` say
 * the same thing element by element; `ReconcileClosedForm` proves the two agree
 * whenever ids are distinct ignoring case, and the lemmas after it draw the
 * consequences.
 */
module Reconciliation {
  import opened Wrappers
  import opened Webhooks

  /** The events `loadWebhooks` dispatches, in dispatch order. */
  datatype WebhookEvent =
    | WebhookCreate(hook: Webhook)
    | WebhookUpdate(before: Webhook, after: Webhook)
    | WebhookDelete(hook: Webhook)

  /** The outcome of the GET of the channel's webhooks: an exception, a `null`
      body, or the list of webhooks the server returned. */
  datatype FetchResult = FetchFailed | NullBody | Fetched(hooks: seq<Webhook>)

  /** The state of the first loop: the live cache, the snapshot of entries not yet
      seen in the response (`oldList`), and the events dispatched so far. */
  datatype Scan = Scan(cache: seq<Webhook>, stale: seq<Webhook>, events: seq<WebhookEvent>)

  /** The cache after reconciliation and every event dispatched. */
  datatype Reconciled = Reconciled(cache: seq<Webhook>, events: seq<WebhookEvent>)

  /** `String.valueOf` of an avatar: a missing avatar reads as "null", so it cannot
      be told apart from the avatar string "null". */
  function AvatarText(avatar: Option<string>): (r: string)
    ensures r == "null" <==> avatar == None || avatar == Some("null")
    ensures avatar.Some? ==> r == avatar.value
  {
    match avatar
    case None => "null"
    case Some(a) => a
  }

  /** The test of the update branch: the name or the avatar text changed. A webhook
      never differs from itself, and a missing avatar does not differ from "null". */
  function Differs(before: Webhook, after: Webhook): (r: bool)
    ensures before.name == after.name && before.avatar == after.avatar ==> !r
    ensures before.name != after.name ==> r
    ensures before.avatar.Some? && after.avatar.Some? ==>
      (r <==> before.name != after.name || before.avatar != after.avatar)
    ensures before.name == after.name && before.avatar == None && after.avatar == Some("null") ==> !r
  {
    before.name != after.name || AvatarText(before.avatar) != AvatarText(after.avatar)
  }

  /** One pass of the first loop, for one webhook of the response. An id the cache
      does not hold (ignoring case) is reported created and appended. Otherwise an
      update is reported if the name or avatar differ, and the cached entry's id is
      taken out of the snapshot. `getWebhookFromJSON` is taken to build a fresh
      record, so the cache entry itself stays as it was. */
  function ScanStep(s: Scan, remote: Webhook): Scan {
    match FindById(s.cache, remote.id)
    case None =>
      Scan(AddWebhook(s.cache, remote), s.stale, s.events + [WebhookCreate(remote)])
    case Some(cached) =>
      Scan(s.cache, Without(s.stale, cached.id),
           s.events + if Differs(cached, remote) then [WebhookUpdate(cached, remote)] else [])
  }

  /** The first loop over the response, first to last. */
  function ScanAll(s: Scan, remotes: seq<Webhook>): Scan
    decreases |remotes|
  {
    if remotes == [] then s
    else ScanStep(ScanAll(s, remotes[..|remotes| - 1]), remotes[|remotes| - 1])
  }

  /** A delete event for each webhook, in order. */
  function DeleteEvents(hooks: seq<Webhook>): (r: seq<WebhookEvent>)
    ensures |r| == |hooks|
    ensures forall i :: 0 <= i < |hooks| ==> r[i] == WebhookDelete(hooks[i])
  {
    if hooks == [] then [] else [WebhookDelete(hooks[0])] + DeleteEvents(hooks[1..])
  }

  /** The second loop: each snapshot entry left is removed from the cache and
      reported deleted. */
  function DeleteStale(cache: seq<Webhook>, stale: seq<Webhook>): (r: Reconciled)
    ensures r.events == DeleteEvents(stale)
    ensures |r.cache| <= |cache|
    decreases |stale|
  {
    if stale == [] then Reconciled(cache, [])
    else
      var rest := DeleteStale(Without(cache, stale[0].id), stale[1..]);
      Reconciled(rest.cache, [WebhookDelete(stale[0])] + rest.events)
  }

  /** `loadWebhooks` once the request has been made: an exception changes nothing;
      a `null` body leaves the whole snapshot to be deleted. */
  function Reconcile(cache: seq<Webhook>, response: FetchResult): (r: Reconciled)
    ensures response.FetchFailed? ==> r == Reconciled(cache, [])
    ensures response.NullBody? ==> r.events == DeleteEvents(cache)
  {
    match response
    case FetchFailed => Reconciled(cache, [])
    case NullBody => DeleteStale(cache, cache)
    case Fetched(remotes) =>
      var scanned := ScanAll(Scan(cache, cache, []), remotes);
      var deleted := DeleteStale(scanned.cache, scanned.stale);
      Reconciled(deleted.cache, scanned.events + deleted.events)
  }

  /** One step of the first loop reports what `Classify` judges against the live
      cache; a webhook the cache lacks is always appended (no cached id equals it
      exactly either), and a known one leaves the cache as it was. */
  lemma ScanStepEffect(s: Scan, remote: Webhook)
    ensures ScanStep(s, remote).events == s.events + Classify(s.cache, remote)
    ensures FindById(s.cache, remote.id).None? ==>
      ScanStep(s, remote).cache == s.cache + [remote] && ScanStep(s, remote).stale == s.stale
    ensures FindById(s.cache, remote.id).Some? ==>
      ScanStep(s, remote).cache == s.cache && |ScanStep(s, remote).stale| <= |s.stale|
  {
    HasIdFound(s.cache, remote.id);
  }

  /** The first loop only appends: to the cache (at most one entry per remote
      webhook) and to the events (at most one per remote webhook); the snapshot
      only shrinks. */
  lemma {:induction false} ScanAllExtends(s: Scan, remotes: seq<Webhook>)
    ensures var r := ScanAll(s, remotes);
      |s.cache| <= |r.cache| <= |s.cache| + |remotes| && r.cache[..|s.cache|] == s.cache &&
      |s.events| <= |r.events| <= |s.events| + |remotes| && r.events[..|s.events|] == s.events &&
      |r.stale| <= |s.stale|
    decreases |remotes|
  {
    if remotes != [] {
      var init := remotes[..|remotes| - 1];
      ScanAllExtends(s, init);
      var mid := ScanAll(s, init);
      ScanStepEffect(mid, remotes[|remotes| - 1]);
      assert |Classify(mid.cache, remotes[|remotes| - 1])| <= 1;
    }
  }

  /** After a fetched response the cache holds at most the old entries and the
      remote ones. */
  lemma ReconcileBounded(cache: seq<Webhook>, remotes: seq<Webhook>)
    ensures |Reconcile(cache, Fetched(remotes)).cache| <= |cache| + |remotes|
  {
    ScanAllExtends(Scan(cache, cache, []), remotes);
  }

  // ---------------------------------------------------------------------------
  // Reference definitions, element by element

  /** The cached webhooks whose id some remote webhook matches ignoring case. */
  function Kept(cache: seq<Webhook>, remotes: seq<Webhook>): seq<Webhook>
  {
    if cache == [] then []
    else (if FindById(remotes, cache[0].id).Some? then [cache[0]] else []) + Kept(cache[1..], remotes)
  }

  /** The cached webhooks no remote webhook matches. */
  function Unmatched(cache: seq<Webhook>, remotes: seq<Webhook>): seq<Webhook>
  {
    if cache == [] then []
    else (if FindById(remotes, cache[0].id).None? then [cache[0]] else []) + Unmatched(cache[1..], remotes)
  }

  /** The remote webhooks no cached webhook matches, in response order. */
  function Fresh(cache: seq<Webhook>, remotes: seq<Webhook>): seq<Webhook>
    decreases |remotes|
  {
    if remotes == [] then []
    else
      var last := remotes[|remotes| - 1];
      Fresh(cache, remotes[..|remotes| - 1]) + if FindById(cache, last.id).None? then [last] else []
  }

  /** What one remote webhook should cause, judged against the cache alone. */
  function Classify(cache: seq<Webhook>, remote: Webhook): seq<WebhookEvent> {
    match FindById(cache, remote.id)
    case None => [WebhookCreate(remote)]
    case Some(cached) => if Differs(cached, remote) then [WebhookUpdate(cached, remote)] else []
  }

  /** The create and update events, one remote webhook at a time, in response order. */
  function ExpectedEvents(cache: seq<Webhook>, remotes: seq<Webhook>): seq<WebhookEvent>
    decreases |remotes|
  {
    if remotes == [] then []
    else ExpectedEvents(cache, remotes[..|remotes| - 1]) + Classify(cache, remotes[|remotes| - 1])
  }

  lemma {:induction false} KeptMembers(cache: seq<Webhook>, remotes: seq<Webhook>)
    ensures forall w {:trigger w in Kept(cache, remotes)} ::
      w in Kept(cache, remotes) <==> w in cache && FindById(remotes, w.id).Some?
    decreases |cache|
  {
    if cache != [] {
      KeptMembers(cache[1..], remotes);
      assert cache == [cache[0]] + cache[1..];
    }
  }

  lemma {:induction false} UnmatchedMembers(cache: seq<Webhook>, remotes: seq<Webhook>)
    ensures forall w {:trigger w in Unmatched(cache, remotes)} ::
      w in Unmatched(cache, remotes) <==> w in cache && FindById(remotes, w.id).None?
    decreases |cache|
  {
    if cache != [] {
      UnmatchedMembers(cache[1..], remotes);
      assert cache == [cache[0]] + cache[1..];
    }
  }

  lemma {:induction false} FreshMembers(cache: seq<Webhook>, remotes: seq<Webhook>)
    ensures forall w {:trigger w in Fresh(cache, remotes)} ::
      w in Fresh(cache, remotes) <==> w in remotes && FindById(cache, w.id).None?
    decreases |remotes|
  {
    if remotes != [] {
      FreshMembers(cache, remotes[..|remotes| - 1]);
      assert remotes == remotes[..|remotes| - 1] + [remotes[|remotes| - 1]];
    }
  }

  // ---------------------------------------------------------------------------
  // Lemmas about lookup and about the two loops

  lemma EqualsIgnoreCaseSymmetric(a: string, b: string)
    ensures EqualsIgnoreCase(a, b) <==> EqualsIgnoreCase(b, a)
  {
  }

  /** Equal ids are equal ignoring case. */
  lemma EqualsIgnoreCaseReflexive(a: string)
    ensures EqualsIgnoreCase(a, a)
  {
  }

  /** In a list whose ids are distinct ignoring case, ids that match ignoring case
      belong to the same entry. */
  lemma {:induction false} DistinctMatchIsSame(hooks: seq<Webhook>, a: Webhook, b: Webhook)
    requires DistinctIgnoringCase(hooks)
    requires a in hooks && b in hooks && EqualsIgnoreCase(a.id, b.id)
    ensures a == b
  {
    var i :| 0 <= i < |hooks| && hooks[i] == a;
    var j :| 0 <= j < |hooks| && hooks[j] == b;
    EqualsIgnoreCaseSymmetric(a.id, b.id);
    assert !(i < j) && !(j < i);
  }

  /** The tail of a list with ids distinct ignoring case keeps that property, and
      none of its ids matches the head's. */
  lemma DistinctTail(hooks: seq<Webhook>)
    requires hooks != [] && DistinctIgnoringCase(hooks)
    ensures DistinctIgnoringCase(hooks[1..])
    ensures forall w :: w in hooks[1..] ==> !EqualsIgnoreCase(hooks[0].id, w.id)
  {
    var t := hooks[1..];
    forall i, j | 0 <= i < j < |t| ensures !EqualsIgnoreCase(t[i].id, t[j].id) {
      assert t[i] == hooks[i + 1] && t[j] == hooks[j + 1];
    }
    forall w | w in t ensures !EqualsIgnoreCase(hooks[0].id, w.id) {
      var k :| 0 <= k < |t| && t[k] == w;
      assert hooks[k + 1] == w;
    }
  }

  /** Lookup in `a + b` finds what lookup in `a` finds when nothing in `b` matches. */
  lemma {:induction false} FindByIdAppend(a: seq<Webhook>, b: seq<Webhook>, id: string)
    requires forall w :: w in b ==> !EqualsIgnoreCase(w.id, id)
    ensures FindById(a + b, id) == FindById(a, id)
    decreases |a|
  {
    if a != [] {
      assert (a + b)[0] == a[0];
      assert (a + b)[1..] == a[1..] + b;
      FindByIdAppend(a[1..], b, id);
    }
  }

  lemma {:induction false} UnmatchedOfNothing(cache: seq<Webhook>)
    ensures Unmatched(cache, []) == cache
    decreases |cache|
  {
    if cache != [] {
      UnmatchedOfNothing(cache[1..]);
      assert cache == [cache[0]] + cache[1..];
    }
  }

  /** An id is matched by `remotes + [r]` when it is matched by `remotes` or by `r`. */
  lemma FindByIdSnoc(remotes: seq<Webhook>, r: Webhook, id: string)
    ensures FindById(remotes + [r], id).None? <==> FindById(remotes, id).None? && !EqualsIgnoreCase(r.id, id)
  {
    if FindById(remotes, id).Some? {
      assert FindById(remotes, id).value in remotes + [r];
    }
    assert r in remotes + [r];
  }

  /** How the snapshot changes when one more remote webhook, matching none of
      the earlier ones, has been seen. */
  lemma {:induction false} UnmatchedExtend(cache: seq<Webhook>, remotes: seq<Webhook>, r: Webhook)
    requires DistinctIgnoringCase(cache)
    requires forall x :: x in remotes ==> !EqualsIgnoreCase(x.id, r.id)
    ensures Unmatched(cache, remotes + [r]) ==
      match FindById(cache, r.id) {
        case None => Unmatched(cache, remotes)
        case Some(m) => Without(Unmatched(cache, remotes), m.id)
      }
    decreases |cache|
  {
    if cache != [] {
      var c, t := cache[0], cache[1..];
      DistinctTail(cache);
      var u := Unmatched(t, remotes);
      var head := if FindById(remotes, c.id).None? then [c] else [];
      assert Unmatched(cache, remotes) == head + u;
      FindByIdSnoc(remotes, r, c.id);
      EqualsIgnoreCaseSymmetric(c.id, r.id);
      UnmatchedExtend(t, remotes, r);
      if EqualsIgnoreCase(c.id, r.id) {
        // `c` is matched by `r` and so by no earlier remote webhook; nothing after it matches `r`.
        assert FindById(remotes, c.id).None? by {
          forall x | x in remotes ensures !EqualsIgnoreCase(x.id, c.id) {
            EqualsIgnoreCaseSymmetric(x.id, r.id);
          }
        }
        assert FindById(t, r.id).None? by {
          forall w | w in t ensures !EqualsIgnoreCase(w.id, r.id) {
            var k :| 0 <= k < |t| && t[k] == w;
            assert cache[0] == c && cache[k + 1] == w;
            EqualsIgnoreCaseSymmetric(w.id, r.id);
          }
        }
        assert FindById(cache, r.id) == Some(c);
        assert Unmatched(cache, remotes + [r]) == Unmatched(t, remotes + [r]);
        assert (head + u)[1..] == u;
      } else {
        assert FindById(cache, r.id) == FindById(t, r.id);
        assert Unmatched(cache, remotes + [r]) == head + Unmatched(t, remotes + [r]);
        match FindById(t, r.id)
        case None =>
        case Some(m) =>
          assert c.id != m.id;
          if head == [c] {
            assert (head + u)[0] == c && (head + u)[1..] == u;
            assert Without(head + u, m.id) == [c] + Without(u, m.id);
          } else {
            assert head + u == u;
          }
      }
    }
  }

  /** One more remote webhook, matching none of the earlier ones, moves the first loop
      from the state `ExpectedEvents` and friends give for `remotes` to the one they
      give for `remotes + [r]`. */
  lemma ScanStepExtends(cache: seq<Webhook>, remotes: seq<Webhook>, r: Webhook)
    requires DistinctIgnoringCase(cache)
    requires forall x :: x in remotes ==> !EqualsIgnoreCase(x.id, r.id)
    ensures ScanStep(Scan(cache + Fresh(cache, remotes), Unmatched(cache, remotes), ExpectedEvents(cache, remotes)), r)
         == Scan(cache + Fresh(cache, remotes + [r]), Unmatched(cache, remotes + [r]), ExpectedEvents(cache, remotes + [r]))
  {
    var next := remotes + [r];
    assert next[..|next| - 1] == remotes && next[|next| - 1] == r;
    var added, u, events := Fresh(cache, remotes), Unmatched(cache, remotes), ExpectedEvents(cache, remotes);
    assert Fresh(cache, next) == added + if FindById(cache, r.id).None? then [r] else [];
    assert ExpectedEvents(cache, next) == events + Classify(cache, r);
    FreshMembers(cache, remotes);
    FindByIdAppend(cache, added, r.id);
    UnmatchedExtend(cache, remotes, r);
    match FindById(cache, r.id)
    case None =>
      assert !HasId(cache + added, r.id) by {
        forall w | w in cache + added ensures w.id != r.id {
          if w.id == r.id {
            EqualsIgnoreCaseReflexive(r.id);
          }
        }
      }
      assert (cache + added) + [r] == cache + (added + [r]);
      assert ScanStep(Scan(cache + added, u, events), r)
          == Scan(cache + (added + [r]), u, events + [WebhookCreate(r)]);
    case Some(m) =>
      assert FindById(cache + added, r.id) == Some(m);
      assert Classify(cache, r) == if Differs(m, r) then [WebhookUpdate(m, r)] else [];
      assert ScanStep(Scan(cache + added, u, events), r)
          == Scan(cache + added, Without(u, m.id), events + Classify(cache, r));
  }

  /** One pass of the first loop takes one more webhook of the response. */
  lemma ScanAllSnoc(s0: Scan, remotes: seq<Webhook>, i: nat)
    requires i < |remotes|
    ensures ScanAll(s0, remotes[..i + 1]) == ScanStep(ScanAll(s0, remotes[..i]), remotes[i])
  {
    assert remotes[..i + 1][..i] == remotes[..i];
  }

  /** After `i` webhooks of the response, the first loop has appended the new ones,
      left in the snapshot the cached entries nothing matched yet, and dispatched
      what `ExpectedEvents` says. */
  lemma {:induction false} ScanPrefix(cache: seq<Webhook>, remotes: seq<Webhook>, i: nat)
    requires DistinctIgnoringCase(cache) && DistinctIgnoringCase(remotes)
    requires i <= |remotes|
    ensures ScanAll(Scan(cache, cache, []), remotes[..i])
         == Scan(cache + Fresh(cache, remotes[..i]), Unmatched(cache, remotes[..i]), ExpectedEvents(cache, remotes[..i]))
  {
    var s0 := Scan(cache, cache, []);
    if i == 0 {
      UnmatchedOfNothing(cache);
      assert remotes[..0] == [];
    } else {
      var prefix, rs, r := remotes[..i], remotes[..i - 1], remotes[i - 1];
      calc {
        ScanAll(s0, prefix);
      == { ScanAllSnoc(s0, remotes, i - 1); }
        ScanStep(ScanAll(s0, rs), r);
      == { ScanPrefix(cache, remotes, i - 1); }
        ScanStep(Scan(cache + Fresh(cache, rs), Unmatched(cache, rs), ExpectedEvents(cache, rs)), r);
      == { forall x | x in rs ensures !EqualsIgnoreCase(x.id, r.id) {
             var k :| 0 <= k < i - 1 && remotes[k] == x;
           }
           ScanStepExtends(cache, rs, r); }
        Scan(cache + Fresh(cache, rs + [r]), Unmatched(cache, rs + [r]), ExpectedEvents(cache, rs + [r]));
      == { assert prefix == rs + [r]; }
        Scan(cache + Fresh(cache, prefix), Unmatched(cache, prefix), ExpectedEvents(cache, prefix));
      }
    }
  }

  /** Deleting leaves the head of the cache alone when no snapshot entry has its id. */
  lemma {:induction false} DeleteStaleCons(x: Webhook, cache: seq<Webhook>, stale: seq<Webhook>)
    requires forall s :: s in stale ==> s.id != x.id
    ensures DeleteStale([x] + cache, stale).cache == [x] + DeleteStale(cache, stale).cache
    decreases |stale|
  {
    if stale != [] {
      assert ([x] + cache)[1..] == cache;
      assert Without([x] + cache, stale[0].id) == [x] + Without(cache, stale[0].id);
      DeleteStaleCons(x, Without(cache, stale[0].id), stale[1..]);
    }
  }

  /** Deleting the head's id first removes exactly the head. */
  lemma DeleteStaleHead(x: Webhook, cache: seq<Webhook>, stale: seq<Webhook>)
    ensures DeleteStale([x] + cache, [x] + stale).cache == DeleteStale(cache, stale).cache
  {
    assert ([x] + stale)[0] == x && ([x] + stale)[1..] == stale;
    assert ([x] + cache)[1..] == cache;
    assert Without([x] + cache, x.id) == cache;
  }

  /** The second loop removes exactly the unmatched cached entries, and nothing appended. */
  lemma {:induction false} DeleteUnmatched(cache: seq<Webhook>, remotes: seq<Webhook>, added: seq<Webhook>)
    requires DistinctIgnoringCase(cache)
    ensures DeleteStale(cache + added, Unmatched(cache, remotes)).cache == Kept(cache, remotes) + added
    decreases |cache|
  {
    if cache == [] {
      assert cache + added == added;
      assert Unmatched(cache, remotes) == [] && Kept(cache, remotes) == [];
    } else {
      var c, t := cache[0], cache[1..];
      var rest, u := t + added, Unmatched(t, remotes);
      assert cache + added == [c] + rest;
      if FindById(remotes, c.id).None? {
        calc {
          DeleteStale(cache + added, Unmatched(cache, remotes)).cache;
        == { assert Unmatched(cache, remotes) == [c] + u; }
          DeleteStale([c] + rest, [c] + u).cache;
        == { DeleteStaleHead(c, rest, u); }
          DeleteStale(rest, u).cache;
        == { DistinctTail(cache); DeleteUnmatched(t, remotes, added); }
          Kept(t, remotes) + added;
        == { assert Kept(cache, remotes) == Kept(t, remotes); }
          Kept(cache, remotes) + added;
        }
      } else {
        DistinctTail(cache);
        calc {
          DeleteStale(cache + added, Unmatched(cache, remotes)).cache;
        == { assert Unmatched(cache, remotes) == u; }
          DeleteStale([c] + rest, u).cache;
        == { UnmatchedMembers(t, remotes);
             forall s | s in u ensures s.id != c.id {
               if s.id == c.id {
                 EqualsIgnoreCaseReflexive(c.id);
               }
             }
             DeleteStaleCons(c, rest, u); }
          [c] + DeleteStale(rest, u).cache;
        == { DeleteUnmatched(t, remotes, added); }
          [c] + (Kept(t, remotes) + added);
        == { assert Kept(cache, remotes) == [c] + Kept(t, remotes); }
          Kept(cache, remotes) + added;
        }
      }
    }
  }

  // ---------------------------------------------------------------------------
  // What loadWebhooks does

  /** With ids distinct ignoring case on both sides, reconciliation keeps the matched
      cached entries (as they were), appends the new remote ones, reports a create or
      an update per remote webhook in response order, then a delete per unmatched
      cached entry in cache order. */
  lemma ReconcileClosedForm(cache: seq<Webhook>, remotes: seq<Webhook>)
    requires DistinctIgnoringCase(cache) && DistinctIgnoringCase(remotes)
    ensures Reconcile(cache, Fetched(remotes))
         == Reconciled(Kept(cache, remotes) + Fresh(cache, remotes),
                       ExpectedEvents(cache, remotes) + DeleteEvents(Unmatched(cache, remotes)))
  {
    ScanPrefix(cache, remotes, |remotes|);
    assert remotes[..|remotes|] == remotes;
    DeleteUnmatched(cache, remotes, Fresh(cache, remotes));
  }

  /** A `null` body deletes every cached webhook, in cache order. */
  lemma {:induction false} ReconcileNullBodyDeletesAll(cache: seq<Webhook>)
    ensures Reconcile(cache, NullBody) == Reconciled([], DeleteEvents(cache))
    decreases |cache|
  {
    if cache != [] {
      ReconcileNullBodyDeletesAll(cache[1..]);
    }
  }

  lemma {:induction false} ExpectedEventsMembers(cache: seq<Webhook>, remotes: seq<Webhook>, e: WebhookEvent)
    ensures e in ExpectedEvents(cache, remotes) <==> exists r :: r in remotes && e in Classify(cache, r)
    decreases |remotes|
  {
    if remotes != [] {
      var init, last := remotes[..|remotes| - 1], remotes[|remotes| - 1];
      ExpectedEventsMembers(cache, init, e);
      assert remotes == init + [last];
      if e in Classify(cache, last) {
        assert last in remotes;
      }
      if exists r :: r in init && e in Classify(cache, r) {
        var r :| r in init && e in Classify(cache, r);
        assert r in remotes;
      }
      if exists r :: r in remotes && e in Classify(cache, r) {
        var r :| r in remotes && e in Classify(cache, r);
        assert r in init || r == last;
      }
    }
  }

  /** A delete event for a webhook exactly when it is in the list. */
  lemma DeleteEventsMembers(hooks: seq<Webhook>, e: WebhookEvent)
    ensures e in DeleteEvents(hooks) <==> e.WebhookDelete? && e.hook in hooks
  {
    var d := DeleteEvents(hooks);
    if e in d {
      var k :| 0 <= k < |d| && d[k] == e;
      assert hooks[k] == e.hook;
    }
    if e.WebhookDelete? && e.hook in hooks {
      var k :| 0 <= k < |hooks| && hooks[k] == e.hook;
      assert d[k] == e;
    }
  }

  /** What one remote webhook contributes: a create when the cache lacks its id, an
      update against the cached entry when name or avatar differ, else nothing. */
  lemma ClassifyMembers(cache: seq<Webhook>, r: Webhook, e: WebhookEvent)
    ensures e in Classify(cache, r) <==>
      (FindById(cache, r.id).None? && e == WebhookCreate(r)) ||
      (FindById(cache, r.id).Some? && Differs(FindById(cache, r.id).value, r) &&
       e == WebhookUpdate(FindById(cache, r.id).value, r))
  {
  }

  /** A remote webhook is reported created exactly when the cache holds no webhook
      with its id (ignoring case); nothing else is reported created. */
  lemma ReconcileCreates(cache: seq<Webhook>, remotes: seq<Webhook>)
    requires DistinctIgnoringCase(cache) && DistinctIgnoringCase(remotes)
    ensures forall w :: WebhookCreate(w) in Reconcile(cache, Fetched(remotes)).events <==>
      w in remotes && FindById(cache, w.id).None?
  {
    ReconcileClosedForm(cache, remotes);
    var u := Unmatched(cache, remotes);
    forall w ensures WebhookCreate(w) in ExpectedEvents(cache, remotes) + DeleteEvents(u) <==>
      w in remotes && FindById(cache, w.id).None?
    {
      var e := WebhookCreate(w);
      ExpectedEventsMembers(cache, remotes, e);
      DeleteEventsMembers(u, e);
      if e in ExpectedEvents(cache, remotes) {
        var r :| r in remotes && e in Classify(cache, r);
        ClassifyMembers(cache, r, e);
      }
      if w in remotes && FindById(cache, w.id).None? {
        ClassifyMembers(cache, w, e);
      }
    }
  }

  /** A remote webhook whose id the cache holds is reported updated, against the
      cached entry, exactly when its name or avatar differ; every update reported
      is of that kind. */
  lemma ReconcileUpdates(cache: seq<Webhook>, remotes: seq<Webhook>)
    requires DistinctIgnoringCase(cache) && DistinctIgnoringCase(remotes)
    ensures forall before, after :: WebhookUpdate(before, after) in Reconcile(cache, Fetched(remotes)).events <==>
      after in remotes && FindById(cache, after.id) == Some(before) && Differs(before, after)
  {
    ReconcileClosedForm(cache, remotes);
    var u := Unmatched(cache, remotes);
    forall before, after
      ensures WebhookUpdate(before, after) in ExpectedEvents(cache, remotes) + DeleteEvents(u) <==>
        after in remotes && FindById(cache, after.id) == Some(before) && Differs(before, after)
    {
      var e := WebhookUpdate(before, after);
      ExpectedEventsMembers(cache, remotes, e);
      DeleteEventsMembers(u, e);
      if e in ExpectedEvents(cache, remotes) {
        var r :| r in remotes && e in Classify(cache, r);
        ClassifyMembers(cache, r, e);
      }
      if after in remotes && FindById(cache, after.id) == Some(before) && Differs(before, after) {
        ClassifyMembers(cache, after, e);
      }
    }
  }

  /** After reconciliation the cache holds the cached webhooks the server still
      lists and the remote webhooks the cache did not hold, and nothing else. */
  lemma ReconcileCacheMembers(cache: seq<Webhook>, remotes: seq<Webhook>)
    requires DistinctIgnoringCase(cache) && DistinctIgnoringCase(remotes)
    ensures forall w :: w in Reconcile(cache, Fetched(remotes)).cache <==>
      ((w in cache && FindById(remotes, w.id).Some?) || (w in remotes && FindById(cache, w.id).None?))
  {
    ReconcileClosedForm(cache, remotes);
    KeptMembers(cache, remotes);
    FreshMembers(cache, remotes);
  }

  /** A cached webhook is reported deleted exactly when the server no longer lists
      a webhook with its id; nothing else is reported deleted. */
  lemma ReconcileDeletes(cache: seq<Webhook>, remotes: seq<Webhook>)
    requires DistinctIgnoringCase(cache) && DistinctIgnoringCase(remotes)
    ensures forall w :: WebhookDelete(w) in Reconcile(cache, Fetched(remotes)).events <==>
      w in cache && FindById(remotes, w.id).None?
  {
    ReconcileClosedForm(cache, remotes);
    ClosedFormDeletes(cache, remotes);
  }

  /** The deletes of the element-wise events: one per unmatched cached entry. */
  lemma ClosedFormDeletes(cache: seq<Webhook>, remotes: seq<Webhook>)
    ensures forall w :: WebhookDelete(w) in ExpectedEvents(cache, remotes) + DeleteEvents(Unmatched(cache, remotes)) <==>
      w in cache && FindById(remotes, w.id).None?
  {
    var u := Unmatched(cache, remotes);
    UnmatchedMembers(cache, remotes);
    ExpectedEventsNoDeletes(cache, remotes);
    forall w ensures WebhookDelete(w) in ExpectedEvents(cache, remotes) + DeleteEvents(u) <==>
      w in cache && FindById(remotes, w.id).None?
    {
      DeleteEventsMembers(u, WebhookDelete(w));
    }
  }

  /** The scan reports creates and updates only. */
  lemma {:induction false} ExpectedEventsNoDeletes(cache: seq<Webhook>, remotes: seq<Webhook>)
    ensures forall e :: e in ExpectedEvents(cache, remotes) ==> !e.WebhookDelete?
    decreases |remotes|
  {
    if remotes != [] {
      ExpectedEventsNoDeletes(cache, remotes[..|remotes| - 1]);
    }
  }

  /** When every cached id is matched, everything is kept and nothing is unmatched. */
  lemma {:induction false} KeptAll(cache: seq<Webhook>, remotes: seq<Webhook>)
    requires forall w :: w in cache ==> FindById(remotes, w.id).Some?
    ensures Kept(cache, remotes) == cache && Unmatched(cache, remotes) == []
    decreases |cache|
  {
    if cache != [] {
      var c, t := cache[0], cache[1..];
      assert c in cache;
      forall w | w in t ensures FindById(remotes, w.id).Some? {
        assert w in cache;
      }
      KeptAll(t, remotes);
      assert Kept(cache, remotes) == [c] + Kept(t, remotes);
      assert Unmatched(cache, remotes) == Unmatched(t, remotes);
      assert cache == [c] + t;
    }
  }

  lemma {:induction false} NothingNewFromCache(cache: seq<Webhook>, remotes: seq<Webhook>)
    requires DistinctIgnoringCase(cache)
    requires forall r :: r in remotes ==> r in cache
    ensures Fresh(cache, remotes) == [] && ExpectedEvents(cache, remotes) == []
    decreases |remotes|
  {
    if remotes != [] {
      var last := remotes[|remotes| - 1];
      assert last in remotes;
      EqualsIgnoreCaseReflexive(last.id);
      var m := FindById(cache, last.id).value;
      DistinctMatchIsSame(cache, m, last);
      NothingNewFromCache(cache, remotes[..|remotes| - 1]);
    }
  }

  /** When the server returns exactly the cached list, nothing is dispatched and the
      cache is unchanged. */
  lemma ReconcileUnchangedRemote(cache: seq<Webhook>)
    requires DistinctIgnoringCase(cache)
    ensures Reconcile(cache, Fetched(cache)) == Reconciled(cache, [])
  {
    ReconcileClosedForm(cache, cache);
    SelfMatched(cache);
    KeptAll(cache, cache);
    NothingNewFromCache(cache, cache);
    assert cache + [] == cache;
    assert DeleteEvents([]) == [];
  }

  /** Every entry of a list is found by its own id. */
  lemma SelfMatched(hooks: seq<Webhook>)
    ensures forall w :: w in hooks ==> FindById(hooks, w.id).Some?
  {
    forall w | w in hooks ensures FindById(hooks, w.id).Some? {
      EqualsIgnoreCaseReflexive(w.id);
    }
  }

  /** Two lists with ids distinct ignoring case, no id of one matching an id of the
      other, concatenate to such a list. */
  lemma DistinctAppend(a: seq<Webhook>, b: seq<Webhook>)
    requires DistinctIgnoringCase(a) && DistinctIgnoringCase(b)
    requires forall x, y :: x in a && y in b ==> !EqualsIgnoreCase(x.id, y.id)
    ensures DistinctIgnoringCase(a + b)
  {
    var s := a + b;
    forall i, j | 0 <= i < j < |s| ensures !EqualsIgnoreCase(s[i].id, s[j].id) {
      if j < |a| {
        assert s[i] == a[i] && s[j] == a[j];
      } else if i >= |a| {
        assert s[i] == b[i - |a|] && s[j] == b[j - |a|];
      } else {
        assert s[i] == a[i] && s[j] == b[j - |a|];
      }
    }
  }

  lemma {:induction false} KeptDistinct(cache: seq<Webhook>, remotes: seq<Webhook>)
    requires DistinctIgnoringCase(cache)
    ensures DistinctIgnoringCase(Kept(cache, remotes))
    decreases |cache|
  {
    if cache != [] {
      var c, t := cache[0], cache[1..];
      DistinctTail(cache);
      KeptDistinct(t, remotes);
      KeptMembers(t, remotes);
      if FindById(remotes, c.id).Some? {
        DistinctAppend([c], Kept(t, remotes));
      }
    }
  }

  lemma {:induction false} FreshDistinct(cache: seq<Webhook>, remotes: seq<Webhook>)
    requires DistinctIgnoringCase(remotes)
    ensures DistinctIgnoringCase(Fresh(cache, remotes))
    decreases |remotes|
  {
    if remotes != [] {
      var init, last := remotes[..|remotes| - 1], remotes[|remotes| - 1];
      assert DistinctIgnoringCase(init) by {
        forall i, j | 0 <= i < j < |init| ensures !EqualsIgnoreCase(init[i].id, init[j].id) {
          assert init[i] == remotes[i] && init[j] == remotes[j];
        }
      }
      FreshDistinct(cache, init);
      FreshMembers(cache, init);
      if FindById(cache, last.id).None? {
        forall x, y | x in Fresh(cache, init) && y in [last] ensures !EqualsIgnoreCase(x.id, y.id) {
          var k :| 0 <= k < |init| && init[k] == x;
          assert remotes[k] == x;
        }
        DistinctAppend(Fresh(cache, init), [last]);
      }
    }
  }

  /** When every remote id is matched by the cache, nothing is appended and only
      updates are reported. */
  lemma {:induction false} AllMatchedOnlyUpdates(cache: seq<Webhook>, remotes: seq<Webhook>)
    requires forall r :: r in remotes ==> FindById(cache, r.id).Some?
    ensures Fresh(cache, remotes) == []
    ensures forall e :: e in ExpectedEvents(cache, remotes) ==> e.WebhookUpdate?
    decreases |remotes|
  {
    if remotes != [] {
      var init, last := remotes[..|remotes| - 1], remotes[|remotes| - 1];
      assert last in remotes;
      forall r | r in init ensures FindById(cache, r.id).Some? {
        var k :| 0 <= k < |init| && init[k] == r;
        assert remotes[k] == r;
      }
      AllMatchedOnlyUpdates(cache, init);
    }
  }

  /** After one load, the cache's ids are still distinct ignoring case. */
  lemma SettledDistinct(cache: seq<Webhook>, remotes: seq<Webhook>)
    requires DistinctIgnoringCase(cache) && DistinctIgnoringCase(remotes)
    ensures DistinctIgnoringCase(Kept(cache, remotes) + Fresh(cache, remotes))
  {
    var kept, added := Kept(cache, remotes), Fresh(cache, remotes);
    KeptMembers(cache, remotes);
    FreshMembers(cache, remotes);
    KeptDistinct(cache, remotes);
    FreshDistinct(cache, remotes);
    forall x, y | x in kept && y in added ensures !EqualsIgnoreCase(x.id, y.id) {
      assert x in cache;
      assert FindById(cache, y.id).None?;
    }
    DistinctAppend(kept, added);
  }

  /** After one load, every cached id is matched by the server list. */
  lemma SettledMatched(cache: seq<Webhook>, remotes: seq<Webhook>)
    ensures forall w: Webhook :: w in Kept(cache, remotes) + Fresh(cache, remotes) ==> FindById(remotes, w.id).Some?
  {
    var kept, added := Kept(cache, remotes), Fresh(cache, remotes);
    KeptMembers(cache, remotes);
    FreshMembers(cache, remotes);
    forall w: Webhook | w in kept + added ensures FindById(remotes, w.id).Some? {
      if w in added {
        EqualsIgnoreCaseReflexive(w.id);
      }
    }
  }

  /** After one load, every server id is matched by the cache. */
  lemma SettledCovers(cache: seq<Webhook>, remotes: seq<Webhook>)
    ensures forall r: Webhook :: r in remotes ==> FindById(Kept(cache, remotes) + Fresh(cache, remotes), r.id).Some?
  {
    var kept, added := Kept(cache, remotes), Fresh(cache, remotes);
    KeptMembers(cache, remotes);
    FreshMembers(cache, remotes);
    forall r | r in remotes ensures FindById(kept + added, r.id).Some? {
      match FindById(cache, r.id)
      case None =>
        assert r in added;
        EqualsIgnoreCaseReflexive(r.id);
        assert r in kept + added;
      case Some(m) =>
        EqualsIgnoreCaseSymmetric(m.id, r.id);
        assert FindById(remotes, m.id).Some?;
        assert m in kept;
        assert m in kept + added;
    }
  }

  /** Loading the same server list a second time changes nothing in the cache and
      reports neither creates nor deletes. It can report updates again: with
      `getWebhookFromJSON` taken to build a fresh record, the update branch leaves
      the old entry cached, so a changed name or avatar is seen as changed on
      every load. */
  lemma ReconcileSettles(cache: seq<Webhook>, remotes: seq<Webhook>)
    requires DistinctIgnoringCase(cache) && DistinctIgnoringCase(remotes)
    ensures var once := Reconcile(cache, Fetched(remotes));
      var twice := Reconcile(once.cache, Fetched(remotes));
      twice.cache == once.cache && forall e :: e in twice.events ==> e.WebhookUpdate?
  {
    ReconcileClosedForm(cache, remotes);
    var once := Kept(cache, remotes) + Fresh(cache, remotes);
    assert Reconcile(cache, Fetched(remotes)).cache == once;
    SettledDistinct(cache, remotes);
    SettledMatched(cache, remotes);
    SettledCovers(cache, remotes);
    KeptAll(once, remotes);
    AllMatchedOnlyUpdates(once, remotes);
    ReconcileClosedForm(once, remotes);
    assert once + [] == once;
    assert DeleteEvents([]) == [];
  }

  /** Worked example: cache [A(name "x"), B], server [A(name "y"), C]. The events are an
      update of A, a create of C and a delete of B. The cache ends as [A, C] with A still
      named "x", because `getWebhookFromJSON` is taken to build a fresh record that
      the update branch does not put into the list. */
  lemma ReconcileExample(a: Webhook, b: Webhook, c: Webhook, a': Webhook)
    requires a == Webhook("1", "x", None) && b == Webhook("2", "b", None) && c == Webhook("3", "c", None)
    requires a' == Webhook("1", "y", None)
    ensures Reconcile([a, b], Fetched([a', c]))
         == Reconciled([a, c], [WebhookUpdate(a, a'), WebhookCreate(c), WebhookDelete(b)])
  {
    var cache, remotes := [a, b], [a', c];
    calc {
      Reconcile(cache, Fetched(remotes));
    == { ExampleParts(); ReconcileClosedForm(cache, remotes); }
      Reconciled(Kept(cache, remotes) + Fresh(cache, remotes),
                 ExpectedEvents(cache, remotes) + DeleteEvents(Unmatched(cache, remotes)));
    == { ExampleParts(); }
      Reconciled([a] + [c], [WebhookUpdate(a, a'), WebhookCreate(c)] + DeleteEvents([b]));
    == { assert DeleteEvents([b]) == [WebhookDelete(b)]; }
      Reconciled([a, c], [WebhookUpdate(a, a'), WebhookCreate(c), WebhookDelete(b)]);
    }
  }

  /** The element-wise definitions on the example's lists. */
  lemma ExampleParts()
    ensures var a, b, c := Webhook("1", "x", None), Webhook("2", "b", None), Webhook("3", "c", None);
      var a' := Webhook("1", "y", None);
      var cache, remotes := [a, b], [a', c];
      DistinctIgnoringCase(cache) && DistinctIgnoringCase(remotes) &&
      Kept(cache, remotes) == [a] && Unmatched(cache, remotes) == [b] &&
      Fresh(cache, remotes) == [c] && ExpectedEvents(cache, remotes) == [WebhookUpdate(a, a'), WebhookCreate(c)]
  {
    var a, b, c := Webhook("1", "x", None), Webhook("2", "b", None), Webhook("3", "c", None);
    var a' := Webhook("1", "y", None);
    var cache, remotes := [a, b], [a', c];
    assert !EqualsIgnoreCase("1", "2") by { assert Fold("1")[0] != Fold("2")[0]; }
    assert !EqualsIgnoreCase("1", "3") by { assert Fold("1")[0] != Fold("3")[0]; }
    assert !EqualsIgnoreCase("2", "1") by { assert Fold("2")[0] != Fold("1")[0]; }
    assert !EqualsIgnoreCase("2", "3") by { assert Fold("2")[0] != Fold("3")[0]; }
    assert !EqualsIgnoreCase("3", "1") by { assert Fold("3")[0] != Fold("1")[0]; }
    assert !EqualsIgnoreCase("3", "2") by { assert Fold("3")[0] != Fold("2")[0]; }
    assert FindById(cache, "1") == Some(a);
    assert FindById(cache, "3") == None;
    assert FindById(remotes, "1") == Some(a');
    assert FindById(remotes, "2") == None;
    assert cache[0] == a && cache[1..] == [b] && [b][1..] == [];
    assert remotes[|remotes| - 1] == c && remotes[..1] == [a'] && [a'][..0] == [];
    assert Kept([b], remotes) == [];
    assert Unmatched([b], remotes) == [b];
    assert Fresh(cache, [a']) == [];
    assert Classify(cache, a') == [WebhookUpdate(a, a')];
    assert Classify(cache, c) == [WebhookCreate(c)];
    assert ExpectedEvents(cache, [a']) == [WebhookUpdate(a, a')];
  }

  /** Loading the example's server list again: the cache [A, C] stays, and the update
      of A is reported a second time (a consequence of taking `getWebhookFromJSON`
      to build a fresh record). */
  lemma ReconcileExampleRepeats(a: Webhook, c: Webhook, a': Webhook)
    requires a == Webhook("1", "x", None) && c == Webhook("3", "c", None)
    requires a' == Webhook("1", "y", None)
    ensures Reconcile([a, c], Fetched([a', c])) == Reconciled([a, c], [WebhookUpdate(a, a')])
  {
    var cache, remotes := [a, c], [a', c];
    calc {
      Reconcile(cache, Fetched(remotes));
    == { RepeatParts(); ReconcileClosedForm(cache, remotes); }
      Reconciled(Kept(cache, remotes) + Fresh(cache, remotes),
                 ExpectedEvents(cache, remotes) + DeleteEvents(Unmatched(cache, remotes)));
    == { RepeatParts(); }
      Reconciled([a, c] + [], [WebhookUpdate(a, a')] + DeleteEvents([]));
    == { assert DeleteEvents([]) == []; }
      Reconciled([a, c], [WebhookUpdate(a, a')]);
    }
  }

  /** The element-wise definitions on the second load of the example. */
  lemma RepeatParts()
    ensures var a, c := Webhook("1", "x", None), Webhook("3", "c", None);
      var a' := Webhook("1", "y", None);
      var cache, remotes := [a, c], [a', c];
      DistinctIgnoringCase(cache) && DistinctIgnoringCase(remotes) &&
      Kept(cache, remotes) == [a, c] && Unmatched(cache, remotes) == [] &&
      Fresh(cache, remotes) == [] && ExpectedEvents(cache, remotes) == [WebhookUpdate(a, a')]
  {
    var a, c := Webhook("1", "x", None), Webhook("3", "c", None);
    var a' := Webhook("1", "y", None);
    var cache, remotes := [a, c], [a', c];
    assert !EqualsIgnoreCase("1", "3") by { assert Fold("1")[0] != Fold("3")[0]; }
    assert !EqualsIgnoreCase("3", "1") by { assert Fold("3")[0] != Fold("1")[0]; }
    assert FindById(cache, "1") == Some(a);
    assert FindById(cache, "3") == Some(c);
    assert FindById(remotes, "1") == Some(a');
    assert FindById(remotes, "3") == Some(c);
    assert cache[0] == a && cache[1..] == [c] && [c][1..] == [];
    assert remotes[|remotes| - 1] == c && remotes[..1] == [a'] && [a'][..0] == [];
    assert Kept([c], remotes) == [c];
    assert Unmatched([c], remotes) == [];
    assert Fresh(cache, [a']) == [];
    assert Classify(cache, a') == [WebhookUpdate(a, a')];
    assert Classify(cache, c) == [];
    assert ExpectedEvents(cache, [a']) == [WebhookUpdate(a, a')];
  }
}
