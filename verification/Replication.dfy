/** Replaying a publisher's whole journal into a consumer broker of the same process. */
module Replication {
  import opened Wrappers
  import opened Sequences
  import opened Text
  import opened Instance
  import opened Filter
  import opened Journal
  import opened Broker
  import opened Persistence

  datatype Report = Report(applied: nat, skipped: nat, latest: nat)

  datatype Outcome = Outcome(state: BrokerState, applied: nat, skipped: nat, error: Option<TransportError>)

  /** Applies entries in order until one fails, skipping those at or below the watermark. */
  function ApplyAll(c: BrokerState, p: BrokerState, entries: seq<JournalEntry>): Outcome
    decreases |entries|
  {
    if entries == [] then Outcome(c, 0, 0, None)
    else if c.applied >= entries[0].sequence then
      var rest := ApplyAll(c, p, entries[1..]);
      rest.(skipped := rest.skipped + 1)
    else
      match ApplyFrom(c, p, entries[0])
      case Err(e) => Outcome(c, 0, 0, Some(e))
      case Ok(next) =>
        var rest := ApplyAll(next, p, entries[1..]);
        rest.(applied := rest.applied + 1)
  }

  /** Either every entry is passed, or all before the first that fails are, and its error is reported; every entry
      passed is counted once. */
  lemma {:induction false} ApplyAllStopsExactly(c: BrokerState, p: BrokerState, entries: seq<JournalEntry>)
    ensures var r := ApplyAll(c, p, entries);
      var n := r.applied + r.skipped;
      && n <= |entries| && (r.error == None <==> n == |entries|)
      && (r.error.Some? ==>
            && r.state.applied < entries[n].sequence && ApplyFrom(r.state, p, entries[n]) == Err(r.error.value))
      && ApplyAll(c, p, entries[..n]) == r.(error := None)
    decreases |entries|
  {
    hide ApplyFrom;
    if entries == [] {
    } else {
      var rest := entries[1..];
      var r := ApplyAll(c, p, entries);
      var n := r.applied + r.skipped;
      if c.applied >= entries[0].sequence {
        ApplyAllStopsExactly(c, p, rest);
        assert entries[..n][1..] == rest[..n - 1];
      } else if ApplyFrom(c, p, entries[0]).Ok? {
        ApplyAllStopsExactly(ApplyFrom(c, p, entries[0]).value, p, rest);
        assert entries[..n][1..] == rest[..n - 1];
      } else {
        assert entries[..n] == [];
      }
    }
  }

  function Pull(c: BrokerState, p: BrokerState, since: nat): Outcome {
    ApplyAll(c, p, SyncSince(p, since))
  }

  // ---- The invariant between a publisher and its replica

  ghost predicate NoPutAfter(j: seq<JournalEntry>, lo: nat, oid: string) {
    forall i :: lo <= i < |j| && j[i].operation == PutObject ==> j[i].oid != oid
  }

  /** The replica holds the publisher's own instance of every object that is not put again beyond the watermark. */
  ghost predicate SameWhereSettled(c: BrokerState, p: BrokerState) {
    forall oid :: oid in c.store && NoPutAfter(p.journal, c.applied, oid) ==>
        oid in p.store && c.store[oid] == p.store[oid]
  }

  /** The replica has replayed exactly the publisher's journal up to its watermark, and holds the publisher's own
      instance of every object that is not put again later. */
  ghost predicate Follows(c: BrokerState, p: BrokerState) {
    && WellFormed(p) && WellFormed(c) && c.registry == p.registry
    && |p.journal| <= U64_MAX
    && c.applied <= |p.journal| && c.journal == p.journal[..c.applied]
    && SameWhereSettled(c, p)
  }

  /** The publisher's state as its replica holds it once it is up to date. */
  function CaughtUp(p: BrokerState): BrokerState {
    p.(applied := |p.journal|)
  }

  lemma FreshReplicaFollows(p: BrokerState)
    requires WellFormed(p) && |p.journal| <= U64_MAX
    ensures Follows(New(p.registry), p)
  {
  }

  lemma WriteKeepsFollowing(c: BrokerState, p: BrokerState, w: Write)
    requires Follows(c, p) && |p.journal| < U64_MAX
    ensures Follows(c, Perform(p, w))
  {
    hide WellFormed, FirstPuts, Deleted;
    var p' := Perform(p, w);
    match w {
      case PutWrite(i) => PutIsWellFormed(p, i);
      case DeleteWrite(oid) => DeleteIsWellFormed(p, oid);
    }
    if p' != p {
      assert p'.journal[..c.applied] == p.journal[..c.applied];
      var e := p'.journal[|p.journal|];
      forall oid | oid in c.store && NoPutAfter(p'.journal, c.applied, oid)
        ensures oid in p'.store && c.store[oid] == p'.store[oid]
      {
        assert forall i :: 0 <= i < |p.journal| ==> p'.journal[i] == p.journal[i];
        assert NoPutAfter(p.journal, c.applied, oid);
        assert e.operation == PutObject ==> e.oid != oid;
      }
    }
  }

  /** The next entry always applies, and applying it keeps the invariant. */
  lemma NextEntryApplies(c: BrokerState, p: BrokerState)
    requires Follows(c, p) && c.applied < |p.journal|
    ensures var r := ApplyFrom(c, p, p.journal[c.applied]);
      r.Ok? && Follows(r.value, p) && r.value.applied == c.applied + 1
  {
    hide WellFormed, Recordable, Numbered, Indexed, FirstPuts, Deleted, SameWhereSettled;
    var e := p.journal[c.applied];
    NextEntryIsRecordable(c, p);
    ApplyRemoteIsWellFormed(c, e, if e.operation == PutObject then Some(p.store[e.oid]) else None);
    assert p.journal[..c.applied + 1] == p.journal[..c.applied] + [e];
    NextEntrySettles(c, p);
  }

  lemma NextEntryIsRecordable(c: BrokerState, p: BrokerState)
    requires Follows(c, p) && c.applied < |p.journal|
    ensures var e := p.journal[c.applied];
      && e.sequence == c.applied + 1 && c.sequence == c.applied
      && (e.operation == PutObject || e.operation == DeleteObject)
      && (e.operation == PutObject ==>
          e.oid in p.store && p.store[e.oid].oid == e.oid && p.registry.valid(p.store[e.oid]))
      && (e.operation == DeleteObject ==> e.oid in c.store)
  {
    hide FirstPuts, Deleted;
    StatusOf(p, p.journal[c.applied].oid);
    assert FirstIndex(p.journal, p.journal[c.applied].oid) <= c.applied;
  }

  lemma NextEntrySettles(c: BrokerState, p: BrokerState)
    requires Follows(c, p) && c.applied < |p.journal|
    requires ApplyFrom(c, p, p.journal[c.applied]).Ok?
    ensures SameWhereSettled(ApplyFrom(c, p, p.journal[c.applied]).value, p)
  {
    hide WellFormed;
    var e := p.journal[c.applied];
    var next := ApplyFrom(c, p, e).value;
    NextEntryIsRecordable(c, p);
    forall oid | oid in next.store && NoPutAfter(p.journal, c.applied + 1, oid)
      ensures oid in p.store && next.store[oid] == p.store[oid]
    {
      if !(e.operation == PutObject && e.oid == oid) {
        assert NoPutAfter(p.journal, c.applied, oid);
      }
    }
  }

  lemma CompleteReplicaIsEqual(c: BrokerState, p: BrokerState)
    requires Follows(c, p) && c.applied == |p.journal|
    ensures c == CaughtUp(p)
  {
    assert c.journal == p.journal;
    assert forall oid :: NoPutAfter(p.journal, c.applied, oid);
    assert c.store == p.store;
  }

  // ---- One pull

  /** Applying any slice that starts at or below the watermark succeeds and moves the watermark to its end. */
  lemma {:induction false} SliceApplies(c: BrokerState, p: BrokerState, lo: nat, hi: nat)
    requires Follows(c, p) && lo <= hi <= |p.journal| && lo <= c.applied
    ensures var r := ApplyAll(c, p, p.journal[lo..hi]);
      && r.error == None && r.applied + r.skipped == hi - lo
      && Follows(r.state, p) && r.state.applied == (if c.applied <= hi then hi else c.applied)
      && r.applied == (if c.applied <= hi then hi - c.applied else 0)
    decreases hi - lo
  {
    hide WellFormed, SameWhereSettled, ApplyFrom;
    var entries := p.journal[lo..hi];
    if lo == hi {
    } else {
      EntryIsNumbered(p, lo);
      assert entries[1..] == p.journal[lo + 1..hi];
      if c.applied >= entries[0].sequence {
        SliceApplies(c, p, lo + 1, hi);
      } else {
        NextEntryApplies(c, p);
        SliceApplies(ApplyFrom(c, p, entries[0]).value, p, lo + 1, hi);
      }
    }
  }

  /** From any position at or below the watermark a pull brings the replica to the publisher's own state, whatever
      the replica had already applied, and accounts for every entry received. */
  lemma PullCatchesUp(c: BrokerState, p: BrokerState, since: nat)
    requires Follows(c, p) && since <= c.applied
    ensures var r := Pull(c, p, since);
      && r.state == CaughtUp(p) && r.error == None
      && r.applied + r.skipped == |p.journal| - since && r.applied == |p.journal| - c.applied
  {
    SyncIsSuffix(p, since);
    SliceApplies(c, p, since, |p.journal|);
    assert p.journal[since..|p.journal|] == p.journal[since..];
    CompleteReplicaIsEqual(Pull(c, p, since).state, p);
  }

  /** Each applied entry is recorded at most once. */
  lemma {:induction false} JournalGrowth(c: BrokerState, p: BrokerState, entries: seq<JournalEntry>)
    ensures var r := ApplyAll(c, p, entries);
      |r.state.journal| <= |c.journal| + r.applied && r.applied + r.skipped <= |entries|
    decreases |entries|
  {
    if entries == [] {
    } else {
      if c.applied >= entries[0].sequence {
        JournalGrowth(c, p, entries[1..]);
      } else if ApplyFrom(c, p, entries[0]).Ok? {
        JournalGrowth(ApplyFrom(c, p, entries[0]).value, p, entries[1..]);
      }
    }
  }

  /** A pull from beyond the watermark leaves a gap: the journals agree afterwards exactly when the position was at or
      below the watermark or nothing was missing. */
  lemma PullCompleteExactly(c: BrokerState, p: BrokerState, since: nat)
    requires Follows(c, p) && since <= U64_MAX
    ensures Pull(c, p, since).state.journal == p.journal <==> since <= c.applied || c.applied == |p.journal|
  {
    SyncIsSuffix(p, since);
    if since <= c.applied {
      PullCatchesUp(c, p, since);
    } else {
      JournalGrowth(c, p, SyncSince(p, since));
      if c.applied == |p.journal| {
        assert SyncSince(p, since) == [];
        assert c.journal == p.journal;
      }
    }
  }

  /** The load rule for a zero watermark is harmless to a replica: one with watermark zero has recorded nothing. */
  lemma ReplicaSurvivesRestart(c: BrokerState, p: BrokerState)
    requires Follows(c, p)
    ensures Reloaded(c) == c
  {
  }

  /** Stopping after any entry, restarting from disk, and pulling again from any position at or below the watermark
      ends where one uninterrupted pull does; and pulling once more changes nothing. */
  lemma RetryAndRestartAgree(c: BrokerState, p: BrokerState, since: nat, stop: nat, again: nat, once: nat)
    requires Follows(c, p) && since <= c.applied && since <= stop <= |p.journal|
    ensures var partial := ApplyAll(c, p, p.journal[since..stop]).state;
      && Reloaded(partial) == partial
      && (again <= partial.applied ==>
            && Pull(Reloaded(partial), p, again).state == Pull(c, p, since).state
            && (once <= |p.journal| ==> Pull(Pull(c, p, since).state, p, once).state == Pull(c, p, since).state))
  {
    hide WellFormed, SameWhereSettled, ApplyAll, ApplyFrom, Retain;
    SliceApplies(c, p, since, stop);
    var partial := ApplyAll(c, p, p.journal[since..stop]).state;
    ReplicaSurvivesRestart(partial, p);
    PullCatchesUp(c, p, since);
    if again <= partial.applied {
      PullCatchesUp(partial, p, again);
      SliceApplies(c, p, since, |p.journal|);
      assert p.journal[since..|p.journal|] == p.journal[since..];
      SyncIsSuffix(p, since);
      if once <= |p.journal| {
        PullCatchesUp(CaughtUp(p), p, once);
      }
    }
  }

  lemma FollowerIsIndexed(c: BrokerState, p: BrokerState)
    requires Follows(c, p)
    ensures Indexed(p) && Indexed(CaughtUp(p))
  {
  }

  /** Once caught up, every query and every read answers as the publisher does. */
  lemma CaughtUpAnswersAlike(c: BrokerState, p: BrokerState, since: nat, request: FilterRequest, oid: string)
    requires Follows(c, p) && since <= c.applied
    ensures var replica := Pull(c, p, since).state;
      Indexed(replica) && Query(replica, request) == Query(p, request) && ReadObject(replica, oid) == ReadObject(p, oid)
  {
    hide WellFormed, Pull, Parse, Trim, Retain;
    PullCatchesUp(c, p, since);
    FollowerIsIndexed(c, p);
    var replica := CaughtUp(p);
    assert Values(replica) == Values(p);
    if request.filter.Some? && Parse(request.filter.value).Ok? {
      var f := Parse(request.filter.value).value;
      SameSelection(Values(p), (i: MimInstance) => i.oid !in replica.inactive && Matches(i, f),
                    (i: MimInstance) => i.oid !in p.inactive && Matches(i, f));
    } else {
      SameSelection(Values(p),
                    (i: MimInstance) => i.className == request.className && i.oid !in replica.inactive &&
                        PropertyMatches(i, request),
                    (i: MimInstance) => i.className == request.className && i.oid !in p.inactive &&
                        PropertyMatches(i, request));
    }
  }

  // ---- Runs in which publisher writes, single applications, aborts and restarts interleave

  datatype System = System(publisher: BrokerState, consumer: BrokerState, pending: seq<JournalEntry>)

  datatype Event = Publish(write: Write) | Fetch(since: nat) | ApplyHead | Abandon | Restart

  function Step(s: System, e: Event): System {
    match e
    case Publish(w) => s.(publisher := Perform(s.publisher, w))
    case Fetch(since) => s.(pending := SyncSince(s.publisher, since))
    case ApplyHead =>
      if s.pending == [] then s
      else if s.consumer.applied >= s.pending[0].sequence then s.(pending := s.pending[1..])
      else
        (match ApplyFrom(s.consumer, s.publisher, s.pending[0])
         case Ok(next) => s.(consumer := next, pending := s.pending[1..])
         case Err(_) => s.(pending := []))
    case Abandon => s.(pending := [])
    case Restart => s.(consumer := Reloaded(s.consumer), pending := [])
  }

  /** Pulls start at or below the watermark, and the publisher's counter has room left. */
  ghost predicate Lawful(s: System, es: seq<Event>)
    decreases |es|
  {
    es != [] ==>
    && (es[0].Fetch? ==> es[0].since <= s.consumer.applied)
    && (es[0].Publish? ==> |s.publisher.journal| < U64_MAX)
    && Lawful(Step(s, es[0]), es[1..])
  }

  function RunSystem(s: System, es: seq<Event>): System
    decreases |es|
  {
    if es == [] then s else RunSystem(Step(s, es[0]), es[1..])
  }

  /** A run takes its steps one after the other. */
  lemma {:induction false} RunTakesSteps(s: System, es: seq<Event>, e: Event)
    ensures RunSystem(s, []) == s && RunSystem(s, es + [e]) == Step(RunSystem(s, es), e)
    decreases |es|
  {
    hide Step;
    if es == [] {
      assert [e][1..] == [] && [] + [e] == [e];
    } else {
      RunTakesSteps(Step(s, es[0]), es[1..], e);
      assert (es + [e])[1..] == es[1..] + [e];
    }
  }

  /** What is still to apply is a piece of the publisher's journal with no gap before it. */
  ghost predicate Gapless(s: System) {
    exists lo, hi :: 0 <= lo <= hi <= |s.publisher.journal| && lo <= s.consumer.applied
                       && s.pending == s.publisher.journal[lo..hi]
  }

  lemma WriteExtendsJournal(p: BrokerState, w: Write)
    ensures p.journal <= Perform(p, w).journal
  {
  }

  lemma HeadKeepsFollowing(s: System, lo: nat, hi: nat)
    requires Follows(s.consumer, s.publisher)
    requires lo < hi <= |s.publisher.journal| && lo <= s.consumer.applied
    requires s.pending == s.publisher.journal[lo..hi]
    ensures var t := Step(s, ApplyHead);
      && t.publisher == s.publisher && Follows(t.consumer, t.publisher)
      && lo + 1 <= t.consumer.applied && t.pending == s.publisher.journal[lo + 1..hi]
  {
    hide WellFormed, SameWhereSettled, ApplyFrom;
    EntryIsNumbered(s.publisher, lo);
    assert s.pending[1..] == s.publisher.journal[lo + 1..hi];
    if s.consumer.applied < s.pending[0].sequence {
      NextEntryApplies(s.consumer, s.publisher);
    }
  }

  lemma FollowerBounds(c: BrokerState, p: BrokerState)
    requires Follows(c, p)
    ensures WellFormed(p) && c.applied <= |p.journal| <= U64_MAX
  {
  }

  lemma StepKeepsFollowing(s: System, e: Event)
    requires Follows(s.consumer, s.publisher) && Gapless(s)
    requires Lawful(s, [e])
    ensures Follows(Step(s, e).consumer, Step(s, e).publisher) && Gapless(Step(s, e))
  {
    hide Follows, WellFormed, ApplyFrom, Perform, Retain, Reloaded;
    FollowerBounds(s.consumer, s.publisher);
    var lo, hi :| 0 <= lo <= hi <= |s.publisher.journal| && lo <= s.consumer.applied
                  && s.pending == s.publisher.journal[lo..hi];
    var s' := Step(s, e);
    match e {
      case Publish(w) =>
        WriteKeepsFollowing(s.consumer, s.publisher, w);
        WriteExtendsJournal(s.publisher, w);
        assert s'.pending == s'.publisher.journal[lo..hi];
      case Fetch(since) =>
        SyncIsSuffix(s.publisher, since);
        assert s'.pending == s'.publisher.journal[since..|s'.publisher.journal|];
      case ApplyHead =>
        if lo < hi {
          HeadKeepsFollowing(s, lo, hi);
        }
      case Abandon =>
        assert s'.pending == s'.publisher.journal[0..0];
      case Restart =>
        ReplicaSurvivesRestart(s.consumer, s.publisher);
        assert s'.pending == s'.publisher.journal[0..0];
    }
  }

  /** Over every interleaving, the replica's journal is the publisher's up to the watermark, its keys and inactive set
      are what that prefix says, and every object with no later Put is the publisher's own instance. */
  lemma {:induction false} ReplicaAlwaysFollows(s: System, es: seq<Event>)
    requires Follows(s.consumer, s.publisher) && Gapless(s)
    requires Lawful(s, es)
    ensures var t := RunSystem(s, es);
      && Follows(t.consumer, t.publisher) && Gapless(t)
      && t.consumer.keys == FirstPuts(t.publisher.journal[..t.consumer.applied])
      && t.consumer.inactive == Deleted(t.publisher.journal[..t.consumer.applied])
    decreases |es|
  {
    if es == [] {
    } else {
      assert Lawful(Step(s, es[0]), []);
      assert [es[0]][1..] == [];
      StepKeepsFollowing(s, es[0]);
      ReplicaAlwaysFollows(Step(s, es[0]), es[1..]);
    }
  }

  /** From two empty brokers, after any lawful run, one completed pull makes the replica the publisher's copy. */
  lemma RunThenPull(registry: Registry, es: seq<Event>, since: nat)
    requires Lawful(System(New(registry), New(registry), []), es)
    ensures var t := RunSystem(System(New(registry), New(registry), []), es);
      since <= t.consumer.applied ==> Pull(t.consumer, t.publisher, since).state == CaughtUp(t.publisher)
  {
    var s := System(New(registry), New(registry), []);
    NewIsWellFormed(registry);
    FreshReplicaFollows(New(registry));
    assert s.pending == s.publisher.journal[0..0];
    ReplicaAlwaysFollows(s, es);
    var t := RunSystem(s, es);
    if since <= t.consumer.applied {
      PullCatchesUp(t.consumer, t.publisher, since);
    }
  }

  // ---- The agent

  /** One pull; the report counts every received entry as applied or skipped. */
  method PullAndApply(consumer: ExchangeBroker, publisher: ExchangeBroker, since: nat)
    returns (r: Result<Report, TransportError>)
    requires consumer != publisher
    modifies consumer
    ensures var outcome := Pull(old(consumer.State()), publisher.State(), since);
      && consumer.State() == outcome.state
      && r == match outcome.error
              case Some(e) => Err(e)
              case None => Ok(Report(outcome.applied, outcome.skipped, publisher.sequence))
  {
    var entries := publisher.SyncEntries(since);
    r := ApplySyncResponse(consumer, publisher, entries, publisher.sequence);
  }

  method ApplySyncResponse(consumer: ExchangeBroker, publisher: ExchangeBroker, entries: seq<JournalEntry>, latest: nat)
    returns (r: Result<Report, TransportError>)
    requires consumer != publisher
    modifies consumer
    ensures var outcome := ApplyAll(old(consumer.State()), publisher.State(), entries);
      && consumer.State() == outcome.state
      && r == match outcome.error
              case Some(e) => Err(e)
              case None => Ok(Report(outcome.applied, outcome.skipped, latest))
  {
    var applied, skipped := 0, 0;
    ghost var whole := ApplyAll(consumer.State(), publisher.State(), entries);
    for n := 0 to |entries|
      invariant publisher.State() == old(publisher.State())
      invariant var rest := ApplyAll(consumer.State(), publisher.State(), entries[n..]);
        whole == Outcome(rest.state, applied + rest.applied, skipped + rest.skipped, rest.error)
    {
      var entry := entries[n];
      assert entries[n..][0] == entry && entries[n..][1..] == entries[n + 1..];
      if consumer.applied >= entry.sequence {
        skipped := skipped + 1;
      } else {
        var step := consumer.ApplyEntryFrom(publisher, entry);
        if step.Err? {
          return Err(step.error);
        }
        applied := applied + 1;
      }
    }
    return Ok(Report(applied, skipped, latest));
  }
}
