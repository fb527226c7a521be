/** Replicating what one subject may read, from the same process or over the network while the publisher keeps
    writing. */
module FilteredReplication {
  import opened Wrappers
  import opened Sequences
  import opened Labeling
  import opened Downgrade
  import opened Instance
  import opened Journal
  import opened Broker
  import Policy
  import opened Secured
  import opened Persistence
  import Replication

  // ---- What a consumer owes the publisher

  /** The publisher's standing on one object is reflected at the consumer, as far as the subject may read it. */
  ghost predicate UpToDate(v: View, c: BrokerState, p: BrokerState, oid: string) {
    && (p.Active(oid) && v.CanRead(p.store[oid]) ==> c.Active(oid) && c.store[oid] == p.store[oid])
    && (oid in p.inactive ==> !c.Active(oid))
  }

  /** Every object whose last entry is at or below the watermark is up to date. */
  ghost predicate Faithful(v: View, c: BrokerState, p: BrokerState) {
    forall oid :: oid in p.store && LastIndex(p.journal, oid) < c.applied ==> UpToDate(v, c, p, oid)
  }

  /** Entries of the publisher's journal, in order, none from beyond the horizon. */
  ghost predicate Drawn(p: BrokerState, pending: seq<JournalEntry>, horizon: nat) {
    && horizon <= |p.journal|
    && (forall k :: 0 <= k < |pending| ==>
        1 <= pending[k].sequence <= horizon && pending[k] == p.journal[pending[k].sequence - 1])
    && Increasing(pending)
  }

  /** No last entry between the watermark and the horizon that concerns the consumer is missing. */
  ghost predicate Covers(v: View, p: BrokerState, watermark: nat, pending: seq<JournalEntry>, horizon: nat) {
    forall oid :: oid in p.store && watermark <= LastIndex(p.journal, oid) < horizon &&
        (oid in p.inactive || v.CanRead(p.store[oid]))
      ==> p.journal[LastIndex(p.journal, oid)] in pending
  }

  /** The two brokers are well formed, share a registry, and the counter has not saturated. */
  ghost predicate Sound(c: BrokerState, p: BrokerState) {
    && WellFormed(p) && WellFormed(c) && c.registry == p.registry
    && |p.journal| <= U64_MAX && c.applied <= |p.journal|
    && (c.applied == 0 ==> c.sequence == 0)
  }

  ghost predicate Invariant(v: View, c: BrokerState, p: BrokerState, pending: seq<JournalEntry>, horizon: nat) {
    Sound(c, p) && Faithful(v, c, p) && Drawn(p, pending, horizon) && Covers(v, p, c.applied, pending, horizon)
  }

  /** Nothing is held that was not handed out. */
  ghost predicate HoldsOnly(c: BrokerState, released: set<MimInstance>) {
    forall oid :: oid in c.store ==> c.store[oid] in released
  }

  // ---- Single steps keep the invariant

  lemma IdleInvariant(v: View, c: BrokerState, p: BrokerState)
    requires Sound(c, p) && Faithful(v, c, p)
    ensures Invariant(v, c, p, [], 0)
  {
  }

  lemma FreshConsumer(v: View, p: BrokerState)
    requires WellFormed(p) && |p.journal| <= U64_MAX
    ensures Invariant(v, New(p.registry), p, [], 0) && HoldsOnly(New(p.registry), {})
  {
    NewIsWellFormed(p.registry);
    forall oid | oid in p.store
      ensures LastIndex(p.journal, oid) >= 0
    {
      StatusOf(p, oid);
    }
  }

  lemma WriteEffect(p: BrokerState, w: Write, oid: string)
    requires WellFormed(p)
    ensures var p' := Perform(p, w);
      && WellFormed(p') && p.journal <= p'.journal && p'.registry == p.registry
      && (LastIndex(p'.journal, oid) < |p.journal| ==>
            && LastIndex(p'.journal, oid) == LastIndex(p.journal, oid)
            && (oid in p'.store <==> oid in p.store)
            && (oid in p.store ==> p'.store[oid] == p.store[oid])
            && (oid in p'.inactive <==> oid in p.inactive))
      && |p'.journal| <= |p.journal| + 1
  {
    hide WellFormed, LastIndex;
    match w {
      case PutWrite(i) => PutIsWellFormed(p, i);
      case DeleteWrite(o) => DeleteIsWellFormed(p, o);
    }
    var p' := Perform(p, w);
    if p' != p {
      Append(p.journal, p'.journal[|p.journal|]);
    }
  }

  /** The journal has grown, and objects whose last entry is in the old part are as they were. */
  ghost predicate Extends(p: BrokerState, p': BrokerState) {
    && p.journal <= p'.journal
    && forall oid: string :: LastIndex(p'.journal, oid) < |p.journal| ==>
         && LastIndex(p'.journal, oid) == LastIndex(p.journal, oid)
         && (oid in p'.store <==> oid in p.store)
         && (oid in p.store ==> p'.store[oid] == p.store[oid])
         && (oid in p'.inactive <==> oid in p.inactive)
  }

  /** A publisher write concerns only objects whose last entry then lies beyond every horizon. */
  lemma WriteKeeps(v: View, c: BrokerState, p: BrokerState, pending: seq<JournalEntry>, horizon: nat, w: Write)
    requires Invariant(v, c, p, pending, horizon) && |p.journal| < U64_MAX
    ensures Invariant(v, c, Perform(p, w), pending, horizon)
  {
    hide WellFormed, LastIndex, View.CanRead, Perform, Faithful, Drawn, Covers, Extends;
    var p' := Perform(p, w);
    assert Extends(p, p') by {
      WriteExtends(p, w);
    }
    WriteEffect(p, w, "");
    assert horizon <= |p.journal| by {
      DrawnFromJournal(p, pending, horizon);
    }
    ExtensionKeepsFaithful(v, c, p, p');
    ExtensionKeepsDrawn(p, p', pending, horizon);
    ExtensionKeepsCovers(v, p, p', c.applied, pending, horizon);
  }

  lemma WriteExtends(p: BrokerState, w: Write)
    requires WellFormed(p)
    ensures Extends(p, Perform(p, w))
  {
    hide WellFormed, LastIndex, Perform;
    forall oid: string
      ensures LastIndex(Perform(p, w).journal, oid) < |p.journal| ==>
            && LastIndex(Perform(p, w).journal, oid) == LastIndex(p.journal, oid)
            && (oid in Perform(p, w).store <==> oid in p.store)
            && (oid in p.store ==> Perform(p, w).store[oid] == p.store[oid])
            && (oid in Perform(p, w).inactive <==> oid in p.inactive)
    {
      WriteEffect(p, w, oid);
    }
    WriteEffect(p, w, "");
  }

  lemma DrawnFromJournal(p: BrokerState, pending: seq<JournalEntry>, horizon: nat)
    requires Drawn(p, pending, horizon)
    ensures horizon <= |p.journal|
  {
  }

  lemma ExtensionKeepsFaithful(v: View, c: BrokerState, p: BrokerState, p': BrokerState)
    requires Extends(p, p') && Faithful(v, c, p) && c.applied <= |p.journal|
    ensures Faithful(v, c, p')
  {
    hide LastIndex, View.CanRead;
  }

  lemma ExtensionKeepsDrawn(p: BrokerState, p': BrokerState, pending: seq<JournalEntry>, horizon: nat)
    requires Extends(p, p') && Drawn(p, pending, horizon)
    ensures Drawn(p', pending, horizon)
  {
    hide LastIndex;
  }

  lemma ExtensionKeepsCovers(v: View, p: BrokerState, p': BrokerState, watermark: nat, pending: seq<JournalEntry>,
                             horizon: nat)
    requires Extends(p, p') && Covers(v, p, watermark, pending, horizon) && horizon <= |p.journal|
    ensures Covers(v, p', watermark, pending, horizon)
  {
    hide LastIndex, View.CanRead;
  }

  lemma {:induction false} WritesKeep(v: View, c: BrokerState, p: BrokerState, pending: seq<JournalEntry>,
                                      horizon: nat, ws: seq<Write>)
    requires Invariant(v, c, p, pending, horizon) && |p.journal| + |ws| <= U64_MAX
    ensures Invariant(v, c, Run(p, ws), pending, horizon)
    ensures |p.journal| <= |Run(p, ws).journal| <= |p.journal| + |ws|
    decreases |ws|
  {
    hide Invariant, WellFormed, LastIndex, Perform;
    if ws == [] {
    } else {
      assert Sound(c, p) by { InvariantIsSound(v, c, p, pending, horizon); }
      WriteKeeps(v, c, p, pending, horizon, ws[0]);
      WriteEffect(p, ws[0], "");
      WritesKeep(v, c, Perform(p, ws[0]), pending, horizon, ws[1..]);
    }
  }

  lemma InvariantIsSound(v: View, c: BrokerState, p: BrokerState, pending: seq<JournalEntry>, horizon: nat)
    requires Invariant(v, c, p, pending, horizon)
    ensures Sound(c, p) && Faithful(v, c, p)
  {
  }

  ghost predicate Increasing(s: seq<JournalEntry>) {
    forall k, l :: 0 <= k < l < |s| ==> s[k].sequence < s[l].sequence
  }

  lemma IncreasingCons(e: JournalEntry, s: seq<JournalEntry>)
    requires Increasing(s) && forall k :: 0 <= k < |s| ==> e.sequence < s[k].sequence
    ensures Increasing([e] + s)
  {
  }

  lemma RetainStaysAbove(s: seq<JournalEntry>, keep: JournalEntry -> bool, bound: nat)
    requires forall k :: 0 <= k < |s| ==> bound < s[k].sequence
    ensures var r := Retain(s, keep); forall k :: 0 <= k < |r| ==> bound < r[k].sequence
  {
    hide Retain;
  }

  lemma {:induction false} RetainKeepsOrder(s: seq<JournalEntry>, keep: JournalEntry -> bool)
    requires Increasing(s)
    ensures Increasing(Retain(s, keep))
  {
    if s == [] {
    } else {
      RetainKeepsOrder(s[1..], keep);
      RetainStaysAbove(s[1..], keep, s[0].sequence);
      IncreasingCons(s[0], Retain(s[1..], keep));
      assert !keep(s[0]) ==> Retain(s, keep) == Retain(s[1..], keep);
    }
  }

  lemma SyncIsDrawn(p: BrokerState, v: View, since: nat)
    requires WellFormed(p) && since <= |p.journal| <= U64_MAX
    ensures SyncSince(p, since) == p.journal[since..]
    ensures Drawn(p, PermittedSince(p, v, since), |p.journal|)
  {
    hide Retain, ReadAs, Recordable, FirstPuts, Deleted, Indexed, SyncSince, PassesSync;
    SyncIsSuffix(p, since);
    SelectionIsDrawn(p, since, (e: JournalEntry) => PassesSync(p, v, e));
  }

  lemma SuffixIncreases(j: seq<JournalEntry>, since: nat)
    requires Numbered(j) && since <= |j| <= U64_MAX
    ensures Increasing(j[since..])
  {
  }

  lemma SelectedEntry(j: seq<JournalEntry>, since: nat, e: JournalEntry)
    requires Numbered(j) && since <= |j| <= U64_MAX && e in j[since..]
    ensures 1 <= e.sequence <= |j| && e == j[e.sequence - 1]
  {
    var l :| 0 <= l < |j[since..]| && j[since..][l] == e;
    assert j[since + l] == e;
  }

  lemma SelectionIsDrawn(p: BrokerState, since: nat, keep: JournalEntry -> bool)
    requires Numbered(p.journal) && since <= |p.journal| <= U64_MAX
    ensures Drawn(p, Retain(p.journal[since..], keep), |p.journal|)
  {
    hide Retain, Numbered, Increasing;
    SuffixIncreases(p.journal, since);
    RetainKeepsOrder(p.journal[since..], keep);
    var pending := Retain(p.journal[since..], keep);
    forall k | 0 <= k < |pending|
      ensures 1 <= pending[k].sequence <= |p.journal| && pending[k] == p.journal[pending[k].sequence - 1]
    {
      SelectedEntry(p.journal, since, pending[k]);
    }
  }

  /** A fresh sync response, filtered for the subject, covers everything up to the publisher's present. */
  lemma FetchKeeps(v: View, c: BrokerState, p: BrokerState, since: nat)
    requires Sound(c, p) && Faithful(v, c, p) && since <= c.applied
    ensures Invariant(v, c, p, PermittedSince(p, v, since), |p.journal|)
  {
    hide LastIndex, View.CanRead, Retain, ReadAs, WellFormed, Drawn, SyncSince;
    SyncIsDrawn(p, v, since);
    var raw := p.journal[since..];
    forall oid | oid in p.store && c.applied <= LastIndex(p.journal, oid) &&
        (oid in p.inactive || v.CanRead(p.store[oid]))
      ensures p.journal[LastIndex(p.journal, oid)] in PermittedSince(p, v, since)
    {
      LastEntryPasses(p, v, oid);
      var k := LastIndex(p.journal, oid) - since;
      assert raw[k] == p.journal[LastIndex(p.journal, oid)];
    }
  }

  lemma LastEntryPasses(p: BrokerState, v: View, oid: string)
    requires WellFormed(p) && oid in p.store && (oid in p.inactive || v.CanRead(p.store[oid]))
    ensures LastIndex(p.journal, oid) >= 0 && PassesSync(p, v, p.journal[LastIndex(p.journal, oid)])
  {
    hide View.CanRead, ReadAs;
    StatusOf(p, oid);
    ReadableAsIs(p, v, oid);
  }

  /** The consumer after the head of the pending entries, fetched from the publisher as it is now. */
  function ApplyHead(v: View, c: BrokerState, p: BrokerState, e: JournalEntry): Result<BrokerState, TransportError> {
    if e.operation == PutObject then
      match ReadAs(p, v, e.oid)
      case Err(error) => Err(error)
      case Ok(i) => ApplyRemote(c, e, Some(i))
    else ApplyRemote(c, e, None)
  }

  /** Once the watermark is at the head, the rest of the response misses nothing beyond it. */
  lemma RestCovers(v: View, p: BrokerState, from: nat, watermark: nat, pending: seq<JournalEntry>, horizon: nat)
    requires WellFormed(p) && |p.journal| <= U64_MAX && Covers(v, p, from, pending, horizon)
    requires pending != [] && from <= watermark && pending[0].sequence <= watermark
    ensures Covers(v, p, watermark, pending[1..], horizon)
  {
    hide WellFormed, LastIndex, View.CanRead;
    forall oid | oid in p.store && watermark <= LastIndex(p.journal, oid) < horizon &&
        (oid in p.inactive || v.CanRead(p.store[oid]))
      ensures p.journal[LastIndex(p.journal, oid)] in pending[1..]
    {
      EntryIsNumbered(p, LastIndex(p.journal, oid));
      assert p.journal[LastIndex(p.journal, oid)] in pending;
    }
  }

  lemma RestDrawn(p: BrokerState, pending: seq<JournalEntry>, horizon: nat)
    requires Drawn(p, pending, horizon) && pending != []
    ensures Drawn(p, pending[1..], horizon)
  {
  }

  lemma SkipKeeps(v: View, c: BrokerState, p: BrokerState, pending: seq<JournalEntry>, horizon: nat)
    requires Invariant(v, c, p, pending, horizon) && pending != [] && pending[0].sequence <= c.applied
    ensures Invariant(v, c, p, pending[1..], horizon)
  {
    hide WellFormed, Faithful, Drawn, Covers;
    RestDrawn(p, pending, horizon);
    RestCovers(v, p, c.applied, c.applied, pending, horizon);
  }

  lemma JournalledEntry(p: BrokerState, e: JournalEntry)
    requires WellFormed(p) && |p.journal| <= U64_MAX && e in p.journal
    ensures 1 <= e.sequence <= |p.journal| && (e.operation == PutObject || e.operation == DeleteObject)
    ensures forall oid :: oid in p.store ==> p.store[oid].oid == oid
  {
    var k :| 0 <= k < |p.journal| && p.journal[k] == e;
    EntryIsNumbered(p, k);
  }

  /** What one applied entry does to the consumer. */
  lemma HeadEffect(v: View, c: BrokerState, p: BrokerState, e: JournalEntry)
    requires Sound(c, p) && e in p.journal && c.applied < e.sequence
    requires ApplyHead(v, c, p, e).Ok?
    ensures var n := ApplyHead(v, c, p, e).value;
      && Sound(n, p) && n.applied == e.sequence
      && (forall oid :: oid != e.oid ==> (n.Active(oid) <==> c.Active(oid)) && (oid in n.store <==> oid in c.store)
                                         && (oid in c.store ==> n.store[oid] == c.store[oid]))
      && (if e.operation == PutObject
          then p.Active(e.oid) && v.CanRead(p.store[e.oid]) && n.Active(e.oid) && n.store[e.oid] == p.store[e.oid]
          else e.operation == DeleteObject && !n.Active(e.oid) && n.store == c.store)
  {
    hide WellFormed, View.CanRead, ReadAs;
    JournalledEntry(p, e);
    ReadableAsIs(p, v, e.oid);
    ApplyRemoteIsWellFormed(c, e, if e.operation == PutObject then Some(p.store[e.oid]) else None);
  }

  lemma HeadKeeps(v: View, c: BrokerState, p: BrokerState, pending: seq<JournalEntry>, horizon: nat)
    requires Invariant(v, c, p, pending, horizon) && pending != [] && c.applied < pending[0].sequence
    requires ApplyHead(v, c, p, pending[0]).Ok?
    ensures Invariant(v, ApplyHead(v, c, p, pending[0]).value, p, pending[1..], horizon)
  {
    hide WellFormed, View.CanRead, LastIndex, ApplyHead, Drawn, Covers;
    var e := pending[0];
    HeadIsInJournal(p, pending, horizon);
    HeadEffect(v, c, p, e);
    RestDrawn(p, pending, horizon);
    RestCovers(v, p, c.applied, e.sequence, pending, horizon);
    assert Faithful(v, ApplyHead(v, c, p, e).value, p) by {
      HeadKeepsFaithful(v, c, p, pending, horizon);
    }
  }

  lemma HeadKeepsFaithful(v: View, c: BrokerState, p: BrokerState, pending: seq<JournalEntry>, horizon: nat)
    requires Invariant(v, c, p, pending, horizon) && pending != [] && c.applied < pending[0].sequence
    requires ApplyHead(v, c, p, pending[0]).Ok?
    ensures Faithful(v, ApplyHead(v, c, p, pending[0]).value, p)
  {
    hide WellFormed, View.CanRead, LastIndex, ApplyHead, Covers, Drawn, UpToDate;
    HeadIsInJournal(p, pending, horizon);
    HeadEffect(v, c, p, pending[0]);
    forall oid | oid in p.store && LastIndex(p.journal, oid) < pending[0].sequence
      ensures UpToDate(v, ApplyHead(v, c, p, pending[0]).value, p, oid)
    {
      HeadSettles(v, c, p, pending, horizon, oid);
    }
  }

  lemma HeadSettles(v: View, c: BrokerState, p: BrokerState, pending: seq<JournalEntry>, horizon: nat, oid: string)
    requires Invariant(v, c, p, pending, horizon) && pending != [] && c.applied < pending[0].sequence
    requires ApplyHead(v, c, p, pending[0]).Ok?
    requires oid in p.store && LastIndex(p.journal, oid) < pending[0].sequence
    ensures UpToDate(v, ApplyHead(v, c, p, pending[0]).value, p, oid)
  {
    hide WellFormed, View.CanRead, ApplyHead, LastIndex;
    var e := pending[0];
    var last := LastIndex(p.journal, oid);
    HeadEffect(v, c, p, e);
    StatusOf(p, oid);
    if e.oid == oid {
      // The entry is in the journal, so the last one cannot come before it.
      assert p.journal[e.sequence - 1].oid == oid;
      assert last == e.sequence - 1;
    }
  }

  // ---- One pull with no writes in between

  lemma EmptyPendingIsUpToDate(v: View, c: BrokerState, p: BrokerState)
    requires Invariant(v, c, p, [], |p.journal|)
    ensures forall oid :: oid in p.store ==> UpToDate(v, c, p, oid)
  {
    hide WellFormed;
    forall oid | oid in p.store
      ensures UpToDate(v, c, p, oid)
    {
    }
  }

  lemma HeadOfPassingEntry(v: View, c: BrokerState, p: BrokerState, e: JournalEntry)
    requires Sound(c, p) && e in p.journal && PassesSync(p, v, e)
    ensures ApplyHead(v, c, p, e).Ok? && ApplyFrom(c, p, e) == ApplyHead(v, c, p, e)
  {
    hide View.CanRead, FirstPuts, Deleted;
    ReadableAsIs(p, v, e.oid);
  }

  /** The readable instances the publisher holds at this moment. */
  ghost function Readable(v: View, p: BrokerState): set<MimInstance> {
    set oid | oid in p.store && p.Active(oid) && v.CanRead(p.store[oid]) :: p.store[oid]
  }

  lemma {:induction false} PendingApplies(v: View, c: BrokerState, p: BrokerState, pending: seq<JournalEntry>,
                                          held: set<MimInstance>)
    requires Invariant(v, c, p, pending, |p.journal|) && HoldsOnly(c, held) && Readable(v, p) <= held
    requires forall k :: 0 <= k < |pending| ==> PassesSync(p, v, pending[k])
    ensures var r := Replication.ApplyAll(c, p, pending);
      && r.error == None && r.applied + r.skipped == |pending|
      && Invariant(v, r.state, p, [], |p.journal|) && HoldsOnly(r.state, held) && c.applied <= r.state.applied
    decreases |pending|
  {
    hide WellFormed, View.CanRead, LastIndex, ApplyHead, ApplyFrom, PassesSync, Faithful, Covers;
    if pending == [] {
    } else {
      var e := pending[0];
      if c.applied >= e.sequence {
        SkipKeeps(v, c, p, pending, |p.journal|);
        PendingApplies(v, c, p, pending[1..], held);
      } else {
        assert e in p.journal;
        HeadOfPassingEntry(v, c, p, e);
        HeadKeeps(v, c, p, pending, |p.journal|);
        HeadEffect(v, c, p, e);
        PendingApplies(v, ApplyHead(v, c, p, e).value, p, pending[1..], held);
      }
    }
  }

  /** The entries numbered beyond a watermark. */
  function Newer(entries: seq<JournalEntry>, watermark: nat): seq<JournalEntry> {
    Retain(entries, (e: JournalEntry) => e.sequence > watermark)
  }

  lemma AllNewer(entries: seq<JournalEntry>, watermark: nat)
    requires forall k :: 0 <= k < |entries| ==> entries[k].sequence > watermark
    ensures Newer(entries, watermark) == entries
  {
    RetainAll(entries, (e: JournalEntry) => e.sequence > watermark);
  }

  lemma MovesWatermark(c: BrokerState, p: BrokerState, e: JournalEntry)
    requires ApplyFrom(c, p, e).Ok?
    ensures ApplyFrom(c, p, e).value.applied == e.sequence
  {
    hide Put, Delete;
  }

  /** Of entries in order, a run that meets no error applies exactly those beyond the watermark. */
  lemma {:induction false} AppliedAreNewer(c: BrokerState, p: BrokerState, entries: seq<JournalEntry>)
    requires Increasing(entries)
    ensures var r := Replication.ApplyAll(c, p, entries);
      r.error == None ==> r.applied == |Newer(entries, c.applied)| && r.skipped == |entries| - r.applied
    decreases |entries|
  {
    hide ApplyFrom;
    if entries == [] {
    } else {
      var e, rest := entries[0], entries[1..];
      if c.applied >= e.sequence {
        AppliedAreNewer(c, p, rest);
      } else if ApplyFrom(c, p, e).Ok? {
        MovesWatermark(c, p, e);
        AppliedAreNewer(ApplyFrom(c, p, e).value, p, rest);
        AllNewer(rest, e.sequence);
        AllNewer(entries, c.applied);
      }
    }
  }

  /** One in-process pull for a subject never fails, applies exactly what is beyond the watermark, and leaves every
      object of the publisher up to date; whatever the consumer newly holds is readable at the publisher right now. */
  lemma FilteredPull(v: View, c: BrokerState, p: BrokerState, since: nat, held: set<MimInstance>)
    requires Sound(c, p) && Faithful(v, c, p) && since <= c.applied && HoldsOnly(c, held)
    ensures var entries := PermittedSince(p, v, since);
      var r := Replication.ApplyAll(c, p, entries);
      && r.error == None
      && r.applied == |Newer(entries, c.applied)| && r.skipped == |entries| - r.applied
      && Sound(r.state, p) && Faithful(v, r.state, p) && c.applied <= r.state.applied
      && (forall oid :: oid in p.store ==> UpToDate(v, r.state, p, oid))
      && HoldsOnly(r.state, held + Readable(v, p))
  {
    hide WellFormed, View.CanRead, LastIndex, PassesSync, Retain, Replication.ApplyAll, Readable, Covers, Newer;
    FetchKeeps(v, c, p, since);
    var entries := PermittedSince(p, v, since);
    PendingApplies(v, c, p, entries, held + Readable(v, p));
    EmptyPendingIsUpToDate(v, Replication.ApplyAll(c, p, entries).state, p);
    AppliedAreNewer(c, p, entries);
  }

  /** The limit of the guarantee: what becomes, in one pull, of an object the subject may not read at the publisher. Its
      Puts are filtered out, so only a Delete that was not applied yet can take an active copy away from the
      consumer. */
  lemma StaleCopyExactly(v: View, c: BrokerState, p: BrokerState, since: nat, oid: string)
    requires Sound(c, p) && Faithful(v, c, p) && since <= c.applied
    requires !(p.Active(oid) && v.CanRead(p.store[oid]))
    ensures var r := Replication.ApplyAll(c, p, PermittedSince(p, v, since)).state;
      && (r.Active(oid) <==> c.Active(oid) && NoDeleteAfter(p.journal, c.applied, oid))
      && (r.Active(oid) ==> r.store[oid] == c.store[oid])
  {
    hide WellFormed, View.CanRead, LastIndex, Retain, Faithful, Covers, Replication.ApplyAll, ReadAs;
    var pending := PermittedSince(p, v, since);
    FetchKeeps(v, c, p, since);
    forall k | 0 <= k < |pending| && pending[k].oid == oid
      ensures pending[k].operation == DeleteObject
    {
      ReadableAsIs(p, v, oid);
    }
    UntouchedExactly(v, c, p, pending, oid);
    DeletesArePending(v, c, p, since, oid);
  }

  ghost predicate NoDeleteAfter(j: seq<JournalEntry>, lo: nat, oid: string) {
    forall k :: lo <= k < |j| && j[k].oid == oid ==> j[k].operation == PutObject
  }

  /** Among the entries still to apply there is one about such an object exactly when it was deleted since. */
  lemma DeletesArePending(v: View, c: BrokerState, p: BrokerState, since: nat, oid: string)
    requires Sound(c, p) && since <= c.applied
    requires !(p.Active(oid) && v.CanRead(p.store[oid]))
    ensures var pending := PermittedSince(p, v, since);
      NoDeleteAfter(p.journal, c.applied, oid) <==>
        forall k :: 0 <= k < |pending| && c.applied < pending[k].sequence ==> pending[k].oid != oid
  {
    hide View.CanRead, LastIndex, Retain, ReadAs, SyncSince, FirstPuts, Deleted;
    SyncIsDrawn(p, v, since);
    ReadableAsIs(p, v, oid);
    var pending, raw := PermittedSince(p, v, since), p.journal[since..];
    forall k | c.applied <= k < |p.journal| && p.journal[k].oid == oid && p.journal[k].operation != PutObject
      ensures p.journal[k] in pending
    {
      assert raw[k - since] == p.journal[k];
    }
    forall k | 0 <= k < |pending| && c.applied < pending[k].sequence && pending[k].oid == oid
      ensures !NoDeleteAfter(p.journal, c.applied, oid)
    {
      assert PassesSync(p, v, pending[k]);
      assert p.journal[pending[k].sequence - 1] == pending[k];
    }
  }

  /** When only Deletes of an object are pending, the first one to be applied decides. */
  lemma {:induction false} UntouchedExactly(v: View, c: BrokerState, p: BrokerState, pending: seq<JournalEntry>,
                                            oid: string)
    requires Sound(c, p) && Drawn(p, pending, |p.journal|)
    requires forall k :: 0 <= k < |pending| ==> PassesSync(p, v, pending[k])
    requires forall k :: 0 <= k < |pending| && pending[k].oid == oid ==> pending[k].operation == DeleteObject
    ensures var r := Replication.ApplyAll(c, p, pending).state;
      && (r.Active(oid) <==>
            c.Active(oid) && forall k :: 0 <= k < |pending| && c.applied < pending[k].sequence ==>
                pending[k].oid != oid)
      && (r.Active(oid) ==> r.store[oid] == c.store[oid])
    decreases |pending|
  {
    hide WellFormed, View.CanRead, LastIndex, ApplyHead, ApplyFrom, PassesSync;
    if pending == [] {
    } else {
      var e, rest := pending[0], pending[1..];
      assert forall k :: 0 <= k < |rest| ==> rest[k] == pending[k + 1];
      assert Drawn(p, rest, |p.journal|);
      if c.applied >= e.sequence {
        UntouchedExactly(v, c, p, rest, oid);
      } else {
        assert e in p.journal;
        HeadOfPassingEntry(v, c, p, e);
        HeadEffect(v, c, p, e);
        UntouchedExactly(v, ApplyHead(v, c, p, e).value, p, rest, oid);
      }
      assert forall k :: 0 <= k < |pending| ==> k == 0 || pending[k] == rest[k - 1];
    }
  }

  /** After a pull the consumer shows exactly what the subject may read now, but for stale copies: an object is shown
      rightly exactly when it is not an active copy of an object put again, and not deleted since, that is unreadable
      now. */
  lemma ShownRightlyExactly(v: View, c: BrokerState, p: BrokerState, since: nat, oid: string)
    requires Sound(c, p) && Faithful(v, c, p) && since <= c.applied && oid in p.store
    ensures var r := Replication.ApplyAll(c, p, PermittedSince(p, v, since)).state;
      (r.Active(oid) <==> p.Active(oid) && v.CanRead(p.store[oid])) <==>
        !(c.Active(oid) && p.Active(oid) && !v.CanRead(p.store[oid]) && NoDeleteAfter(p.journal, c.applied, oid))
  {
    hide WellFormed, View.CanRead, LastIndex, Retain, Faithful, Covers, Drawn, Replication.ApplyAll, NoDeleteAfter,
         Readable, PassesSync;
    FilteredPull(v, c, p, since, set oid | oid in c.store :: c.store[oid]);
    if !(p.Active(oid) && v.CanRead(p.store[oid])) {
      StaleCopyExactly(v, c, p, since, oid);
    }
  }

  // ---- A run that leaves a stale copy

  /** An unrestricted domain, and a subject cleared for unclassified objects only. */
  function Analyst(): View {
    var domain := SecurityDomain("field", "Field", CosmicTopSecret, [], [], []);
    View(Policy.PolicyStore(map["field" := domain], [], DowngradeConfig(true, true)), domain, s => s,
         Policy.Subject("analyst", Unclassified, None, [], None))
  }

  function Track(classification: Option<string>): MimInstance {
    MimInstance("track", "Target", [], Security(None, classification, None), "")
  }

  lemma TrackLabels()
    ensures Analyst().LabelOf(Track(None)) == Ok(NewLabel(NatoPolicy(), Unclassified))
    ensures Analyst().LabelOf(Track(Some(Secret.StanagText()))) == Ok(NewLabel(NatoPolicy(), Secret))
  {
    hide ParseClassification, ClassificationLevel.StanagText;
    ClassificationRoundTrip(Secret);
  }

  lemma AnalystReads()
    ensures Analyst().CanRead(Track(None)) && !Analyst().CanRead(Track(Some(Secret.StanagText())))
  {
    hide LabelFromSecurity, ClassificationLevel.StanagText, Mentions, Policy.EnforceAccess;
    var v := Analyst();
    TrackLabels();
    Policy.AccessGrantedExactly(v.store, v.subject, NewLabel(NatoPolicy(), Unclassified), Policy.Read, v.domain);
    Policy.AccessGrantedExactly(v.store, v.subject, NewLabel(NatoPolicy(), Secret), Policy.Read, v.domain);
  }

  /** A readable Put, a pull, a Put of the same object under a higher classification, and another pull: the consumer
      still shows the first version, which the subject may no longer read at the publisher. */
  lemma StaleCopyArises(registry: Registry)
    requires registry.valid(Track(None)) && registry.valid(Track(Some(Secret.StanagText())))
    ensures var v, low, high := Analyst(), Track(None), Track(Some(Secret.StanagText()));
      var p1 := Put(New(registry), low);
      var c1 := Replication.ApplyAll(New(registry), p1, PermittedSince(p1, v, 0)).state;
      var p2 := Put(p1, high);
      var c2 := Replication.ApplyAll(c1, p2, PermittedSince(p2, v, c1.applied)).state;
      && p2.Active("track") && p2.store["track"] == high && !v.CanRead(high)
      && c2.Active("track") && c2.store["track"] == low
  {
    hide Analyst, View.CanRead, Replication.ApplyAll, PermittedSince, LastIndex, ClassificationLevel.StanagText,
         WellFormed, Faithful, Readable;
    var v, low, high := Analyst(), Track(None), Track(Some(Secret.StanagText()));
    AnalystReads();
    NewIsWellFormed(registry);
    var p1 := Put(New(registry), low);
    PutIsWellFormed(New(registry), low);
    FreshConsumer(v, p1);
    InvariantIsSound(v, New(registry), p1, [], 0);
    FilteredPull(v, New(registry), p1, 0, {});
    var c1 := Replication.ApplyAll(New(registry), p1, PermittedSince(p1, v, 0)).state;
    assert UpToDate(v, c1, p1, "track");
    IdleInvariant(v, c1, p1);
    WriteKeeps(v, c1, p1, [], 0, PutWrite(high));
    var p2 := Put(p1, high);
    InvariantIsSound(v, c1, p2, [], 0);
    StaleCopyExactly(v, c1, p2, c1.applied, "track");
  }

  // ---- Runs with publisher writes between any two steps

  /** `released` collects every instance handed out by an enforced read. */
  datatype System = System(
    publisher: BrokerState,
    consumer: BrokerState,
    pending: seq<JournalEntry>,
    horizon: nat,
    released: set<MimInstance>)

  datatype Event = Publish(write: Write) | Fetch(since: nat) | Apply | Abandon | Restart

  function Step(v: View, s: System, e: Event): System {
    match e
    case Publish(w) => s.(publisher := Perform(s.publisher, w))
    case Fetch(since) => s.(pending := PermittedSince(s.publisher, v, since), horizon := |s.publisher.journal|)
    case Apply =>
      if s.pending == [] then s
      else if s.consumer.applied >= s.pending[0].sequence then s.(pending := s.pending[1..])
      else
        (match ApplyHead(v, s.consumer, s.publisher, s.pending[0])
         case Err(_) => s.(pending := [], horizon := 0)
         case Ok(next) =>
           var out := if s.pending[0].operation == PutObject
                      then {s.publisher.store[s.pending[0].oid]} else {};
           s.(consumer := next, pending := s.pending[1..], released := s.released + out))
    case Abandon => s.(pending := [], horizon := 0)
    case Restart => s.(consumer := Reloaded(s.consumer), pending := [], horizon := 0)
  }

  ghost predicate Lawful(v: View, s: System, es: seq<Event>)
    decreases |es|
  {
    es != [] ==>
      && (es[0].Fetch? ==> es[0].since <= s.consumer.applied)
      && (es[0].Publish? ==> |s.publisher.journal| < U64_MAX)
      && Lawful(v, Step(v, s, es[0]), es[1..])
  }

  function RunSystem(v: View, s: System, es: seq<Event>): System
    decreases |es|
  {
    if es == [] then s else RunSystem(v, Step(v, s, es[0]), es[1..])
  }

  /** A run takes its steps one after the other. */
  lemma {:induction false} RunTakesSteps(v: View, s: System, es: seq<Event>, e: Event)
    ensures RunSystem(v, s, []) == s && RunSystem(v, s, es + [e]) == Step(v, RunSystem(v, s, es), e)
    decreases |es|
  {
    hide Step;
    if es == [] {
      assert [e][1..] == [] && [] + [e] == [e];
    } else {
      RunTakesSteps(v, Step(v, s, es[0]), es[1..], e);
      assert (es + [e])[1..] == es[1..] + [e];
    }
  }

  /** The cross-node invariant, and: all that was released is readable to the subject, all that is held was released. */
  ghost predicate Consistent(v: View, s: System) {
    && Invariant(v, s.consumer, s.publisher, s.pending, s.horizon)
    && HoldsOnly(s.consumer, s.released)
    && forall i :: i in s.released ==> v.CanRead(i)
  }

  lemma StepKeepsConsistent(v: View, s: System, e: Event)
    requires Consistent(v, s)
    requires e.Fetch? ==> e.since <= s.consumer.applied
    requires e.Publish? ==> |s.publisher.journal| < U64_MAX
    ensures Consistent(v, Step(v, s, e)) && s.released <= Step(v, s, e).released
    ensures s.consumer.applied <= Step(v, s, e).consumer.applied
  {
    hide WellFormed, View.CanRead, LastIndex, ApplyHead, Perform, Faithful, Covers, Drawn, Retain;
    match e {
      case Publish(w) => WriteKeeps(v, s.consumer, s.publisher, s.pending, s.horizon, w);
      case Fetch(since) => FetchKeeps(v, s.consumer, s.publisher, since);
      case Apply =>
        if s.pending != [] {
          var head := s.pending[0];
          if s.consumer.applied >= head.sequence {
            SkipKeeps(v, s.consumer, s.publisher, s.pending, s.horizon);
          } else if ApplyHead(v, s.consumer, s.publisher, head).Ok? {
            HeadKeeps(v, s.consumer, s.publisher, s.pending, s.horizon);
            HeadIsInJournal(s.publisher, s.pending, s.horizon);
            HeadEffect(v, s.consumer, s.publisher, head);
          } else {
            IdleInvariant(v, s.consumer, s.publisher);
          }
        }
      case Abandon => IdleInvariant(v, s.consumer, s.publisher);
      case Restart =>
        assert Reloaded(s.consumer) == s.consumer;
        IdleInvariant(v, s.consumer, s.publisher);
    }
  }

  /** A head that was applied already is passed over. Any other moves the watermark to its number, unless it is a Put of
      an object that by now is deleted or may not be read any more: then the pull ends there. */
  lemma ApplyAdvances(v: View, s: System)
    requires Consistent(v, s) && s.pending != []
    ensures var t := Step(v, s, Apply);
      var head, p := s.pending[0], s.publisher;
      && t.publisher == p
      && (head.sequence <= s.consumer.applied ==>
            t.pending == s.pending[1..] && t.consumer == s.consumer && t.released == s.released)
      && (head.sequence > s.consumer.applied ==>
            if head.operation == PutObject && !(p.Active(head.oid) && v.CanRead(p.store[head.oid]))
            then t.pending == [] && t.consumer == s.consumer && t.released == s.released
            else t.pending == s.pending[1..] && t.consumer.applied == head.sequence
                 && (if head.operation == PutObject
                     then t.consumer.Active(head.oid) && t.consumer.store[head.oid] == p.store[head.oid]
                          && t.released == s.released + {p.store[head.oid]}
                     else !t.consumer.Active(head.oid) && t.released == s.released))
  {
    hide WellFormed, View.CanRead, Faithful, Covers, ApplyHead, HoldsOnly, LastIndex;
    var head := s.pending[0];
    HeadIsInJournal(s.publisher, s.pending, s.horizon);
    if head.sequence > s.consumer.applied {
      HeadAppliesExactly(v, s.consumer, s.publisher, head);
      if ApplyHead(v, s.consumer, s.publisher, head).Ok? {
        HeadEffect(v, s.consumer, s.publisher, head);
      }
    }
  }

  lemma HeadAppliesExactly(v: View, c: BrokerState, p: BrokerState, e: JournalEntry)
    requires Sound(c, p) && e in p.journal
    ensures ApplyHead(v, c, p, e).Ok? <==>
      e.operation == DeleteObject || (e.operation == PutObject && p.Active(e.oid) && v.CanRead(p.store[e.oid]))
    ensures e.operation == DeleteObject || e.operation == PutObject
  {
    hide WellFormed, View.CanRead, ReadAs;
    JournalledEntry(p, e);
    ReadableAsIs(p, v, e.oid);
    StoredAreValid(p);
  }

  lemma StoredAreValid(p: BrokerState)
    requires WellFormed(p)
    ensures forall oid :: oid in p.store ==> p.registry.valid(p.store[oid])
  {
  }

  lemma HeadIsInJournal(p: BrokerState, pending: seq<JournalEntry>, horizon: nat)
    requires Drawn(p, pending, horizon) && pending != []
    ensures pending[0] in p.journal
  {
  }

  lemma {:induction false} RunKeepsConsistent(v: View, s: System, es: seq<Event>)
    requires Consistent(v, s) && Lawful(v, s, es)
    ensures Consistent(v, RunSystem(v, s, es))
    decreases |es|
  {
    hide Consistent, Step;
    if es == [] {
    } else {
      StepKeepsConsistent(v, s, es[0]);
      RunKeepsConsistent(v, Step(v, s, es[0]), es[1..]);
    }
  }

  /** After any run from two empty brokers, with publisher writes between any two steps, failed fetches, aborted pulls
      and restarts: every object whose last entry is at or below the watermark is up to date; everything held was
      released to the subject by an enforced read and is readable to it; and when nothing is left to apply of a response
      that is still current, every object is up to date. */
  lemma RemotePullIsFaithful(v: View, registry: Registry, es: seq<Event>, oid: string)
    requires Lawful(v, System(New(registry), New(registry), [], 0, {}), es)
    ensures var t := RunSystem(v, System(New(registry), New(registry), [], 0, {}), es);
      && (oid in t.publisher.store && LastIndex(t.publisher.journal, oid) < t.consumer.applied ==>
            UpToDate(v, t.consumer, t.publisher, oid))
      && (oid in t.consumer.store ==> t.consumer.store[oid] in t.released && v.CanRead(t.consumer.store[oid]))
      && (t.pending == [] && t.horizon == |t.publisher.journal| && oid in t.publisher.store ==>
            UpToDate(v, t.consumer, t.publisher, oid))
  {
    hide View.CanRead, RunSystem, Lawful, LastIndex;
    var s := System(New(registry), New(registry), [], 0, {});
    FreshConsumer(v, New(registry));
    RunKeepsConsistent(v, s, es);
    var t := RunSystem(v, s, es);
    if t.pending == [] && t.horizon == |t.publisher.journal| {
      EmptyPendingIsUpToDate(v, t.consumer, t.publisher);
    }
  }

  // ---- The agent, pulling in process for a subject

  method PullAndApplyForSubject(consumer: ExchangeBroker, publisher: SecuredExchangeBroker, subject: Policy.Subject,
                                since: nat)
    returns (r: Result<Replication.Report, TransportError>)
    requires consumer != publisher.inner
    modifies consumer
    ensures var entries := PermittedSince(publisher.inner.State(), publisher.view.(subject := subject), since);
      var outcome := Replication.ApplyAll(old(consumer.State()), publisher.inner.State(), entries);
      && consumer.State() == outcome.state
      && r == match outcome.error
              case Some(e) => Err(e)
              case None => Ok(Replication.Report(outcome.applied, outcome.skipped, publisher.inner.sequence))
  {
    var entries := publisher.SyncSinceAs(subject, since);
    r := Replication.ApplySyncResponse(consumer, publisher.inner, entries, publisher.inner.sequence);
  }

  // ---- The agent, pulling over the network

  /** What happens at the publisher before one request reaches it, and whether the request gets through. */
  datatype Turn = Turn(writes: seq<Write>, reachable: bool)

  /** The publisher stays reachable and nobody writes to it. */
  ghost predicate Quiet(turns: seq<Turn>) {
    forall t :: t in turns ==> t.reachable && t.writes == []
  }

  function WritesIn(turns: seq<Turn>): nat {
    if turns == [] then 0 else |turns[0].writes| + WritesIn(turns[1..])
  }

  /** A publisher behind the two federation requests; other clients write to it between requests as scheduled. */
  class RemotePublisher {
    const view: View
    var state: BrokerState
    var turns: seq<Turn>

    constructor (view: View, state: BrokerState, turns: seq<Turn>)
      ensures this.view == view && this.state == state && this.turns == turns
    {
      this.view := view;
      this.state := state;
      this.turns := turns;
    }

    ghost predicate HasRoom()
      reads this
    {
      |state.journal| + WritesIn(turns) <= U64_MAX
    }

    /** Lets the next scheduled writes happen. */
    method Advance() returns (reachable: bool, ghost done: seq<Write>)
      requires HasRoom()
      modifies this
      ensures state == Run(old(state), done) && |old(state).journal| + |done| <= U64_MAX && HasRoom()
      ensures Quiet(old(turns)) ==> reachable && done == [] && Quiet(turns) && state == old(state)
    {
      if turns == [] {
        return true, [];
      }
      reachable := turns[0].reachable;
      done := turns[0].writes;
      assert turns[0] in turns;
      RunGrowth(state, done);
      for n := 0 to |turns[0].writes|
        invariant turns == old(turns)
        invariant Run(state, turns[0].writes[n..]) == Run(old(state), done)
      {
        assert turns[0].writes[n..][1..] == turns[0].writes[n + 1..];
        state := Perform(state, turns[0].writes[n]);
      }
      turns := turns[1..];
    }

    /** The journal since a position, filtered for the subject. */
    method FetchSync(since: nat) returns (r: Result<seq<JournalEntry>, TransportError>, ghost done: seq<Write>)
      requires HasRoom()
      modifies this
      ensures state == Run(old(state), done) && |old(state).journal| + |done| <= U64_MAX && HasRoom()
      ensures if r.Ok? then r.value == PermittedSince(state, view, since) else r.error == Network
      ensures Quiet(old(turns)) ==> r.Ok? && done == [] && Quiet(turns) && state == old(state)
    {
      var reachable;
      reachable, done := Advance();
      if reachable {
        r := Ok(PermittedSince(state, view, since));
      } else {
        r := Err(Network);
      }
    }

    /** One object, as the subject may read it now. */
    method FetchInstance(oid: string) returns (r: Result<MimInstance, TransportError>, ghost done: seq<Write>)
      requires HasRoom()
      modifies this
      ensures state == Run(old(state), done) && |old(state).journal| + |done| <= U64_MAX && HasRoom()
      ensures r == ReadAs(state, view, oid) || r == Err(Network)
      ensures Quiet(old(turns)) ==>
                r == ReadAs(state, view, oid) && done == [] && Quiet(turns) && state == old(state)
    {
      var reachable;
      reachable, done := Advance();
      if reachable {
        r := ReadAs(state, view, oid);
      } else {
        r := Err(Network);
      }
    }
  }

  lemma {:induction false} RunGrowth(p: BrokerState, ws: seq<Write>)
    ensures |p.journal| <= |Run(p, ws).journal| <= |p.journal| + |ws|
    decreases |ws|
  {
    if ws == [] {
    } else {
      RunGrowth(Perform(p, ws[0]), ws[1..]);
    }
  }

  /** Nothing new is held unless the subject may read it. */
  ghost predicate NewlyReadable(v: View, before: BrokerState, after: BrokerState) {
    forall oid :: oid in after.store ==>
      v.CanRead(after.store[oid]) || (oid in before.store && after.store[oid] == before.store[oid])
  }

  /** One pull over the network; `before` and `after` are the publisher's writes before and after it answered the sync
      request. However they and the failures fall between the requests, and whether or not the pull completes, what lies
      at or below the watermark stays faithful. A completed pull accounts for every entry of the answer, and if no write
      came after it everything is up to date. Against a publisher that stays reachable and is not written to, it
      completes. */
  method PullAndApplyRemote(consumer: ExchangeBroker, publisher: RemotePublisher, since: nat)
    returns (r: Result<Replication.Report, TransportError>, ghost before: seq<Write>, ghost after: seq<Write>)
    requires publisher.HasRoom()
    requires Sound(consumer.State(), publisher.state) && Faithful(publisher.view, consumer.State(), publisher.state)
    requires since <= consumer.applied
    modifies consumer, publisher
    ensures publisher.HasRoom()
    ensures Sound(consumer.State(), publisher.state) && Faithful(publisher.view, consumer.State(), publisher.state)
    ensures old(consumer.applied) <= consumer.applied
    ensures NewlyReadable(publisher.view, old(consumer.State()), consumer.State())
    ensures publisher.state == Run(Run(old(publisher.state), before), after)
    ensures r.Ok? ==> var asked := Run(old(publisher.state), before);
              && r.value.latest == asked.sequence
              && var entries := PermittedSince(asked, publisher.view, since);
                 && r.value.applied == |Newer(entries, old(consumer.applied))|
                 && r.value.skipped == |entries| - r.value.applied
    ensures r.Err? ==>
              || r.error == Network || r.error == TransportError.Validation || r.error == TransportError.Unsupported
              || exists oid :: ReadAs(publisher.state, publisher.view, oid) == Err(r.error)
    ensures Quiet(old(publisher.turns)) ==>
              r.Ok? && publisher.state == old(publisher.state) && r.value.latest == publisher.state.sequence
    ensures r.Ok? && r.value.latest == publisher.state.sequence ==>
              forall oid :: oid in publisher.state.store ==>
                  UpToDate(publisher.view, consumer.State(), publisher.state, oid)
  {
    hide WellFormed, View.CanRead, Faithful, Covers, Drawn, ApplyRemote, ReadAs, Run, Retain, LastIndex, Counted,
         Newer, Increasing;
    ghost var v := publisher.view;
    IdleInvariant(v, consumer.State(), publisher.state);
    ghost var p0 := publisher.state;
    var sync;
    sync, before := publisher.FetchSync(since);
    after := [];
    NoWrites(publisher.state);
    WritesKeep(v, consumer.State(), p0, [], 0, before);
    InvariantIsSound(v, consumer.State(), publisher.state, [], 0);
    if sync.Err? {
      return Err(sync.error), before, after;
    }
    var entries := sync.value;
    var latest := publisher.state.sequence;
    ghost var asked, horizon := publisher.state, |publisher.state.journal|;
    FetchKeeps(v, consumer.State(), publisher.state, since);
    PermittedPasses(publisher.state, v, since);
    SequenceIsLength(publisher.state);
    var applied, skipped := 0, 0;
    PermittedIncreases(publisher.state, v, since);
    NothingCounted(entries, consumer.applied);
    for n := 0 to |entries|
      invariant publisher.HasRoom()
      invariant Invariant(v, consumer.State(), publisher.state, entries[n..], horizon)
      invariant old(consumer.applied) <= consumer.applied
      invariant NewlyReadable(v, old(consumer.State()), consumer.State())
      invariant latest == horizon && publisher.state == Run(asked, after)
      invariant Counted(entries, n, old(consumer.applied), consumer.applied, applied, skipped)
      invariant Quiet(old(publisher.turns)) ==> Quiet(publisher.turns) && publisher.state == p0
      invariant Quiet(old(publisher.turns)) ==> forall k :: 0 <= k < |entries| ==> PassesSync(p0, v, entries[k])
    {
      var e := entries[n];
      HeadIsInJournal(publisher.state, entries[n..], horizon);
      if Quiet(old(publisher.turns)) {
        HeadOfPassingEntry(v, consumer.State(), publisher.state, e);
      }
      assert entries[n..][0] == e && entries[n..][1..] == entries[n + 1..];
      CountOneMore(entries, n, old(consumer.applied), consumer.applied, applied, skipped);
      if consumer.applied >= e.sequence {
        SkipKeeps(v, consumer.State(), publisher.state, entries[n..], horizon);
        skipped := skipped + 1;
        continue;
      }
      var instance: Option<MimInstance> := None;
      if e.operation == PutObject {
        ghost var p1 := publisher.state;
        var fetched, between := publisher.FetchInstance(e.oid);
        WritesKeep(v, consumer.State(), p1, entries[n..], horizon, between);
        RunConcat(asked, after, between);
        after := after + between;
        if fetched.Err? {
          return Err(fetched.error), before, after;
        }
        instance := Some(fetched.value);
      }
      ghost var c := consumer.State();
      var step := consumer.ApplyRemoteEntry(e, instance);
      if step.Err? {
        ApplyRemoteErrors(c, e, instance);
        return Err(step.error), before, after;
      }
      RemoteStep(v, c, publisher.state, entries[n..], horizon, instance);
      applied := applied + 1;
    }
    AllCounted(entries, old(consumer.applied), consumer.applied, applied, skipped);
    SequenceIsLength(publisher.state);
    if latest == publisher.state.sequence {
      EmptyPendingIsUpToDate(v, consumer.State(), publisher.state);
    }
    return Ok(Replication.Report(applied, skipped, latest)), before, after;
  }

  lemma NoWrites(p: BrokerState)
    ensures Run(p, []) == p
  {
  }

  lemma {:induction false} RunConcat(p: BrokerState, ws: seq<Write>, more: seq<Write>)
    ensures Run(p, ws + more) == Run(Run(p, ws), more)
    decreases |ws|
  {
    if ws == [] {
      assert ws + more == more;
    } else {
      assert (ws + more)[1..] == ws[1..] + more;
      RunConcat(Perform(p, ws[0]), ws[1..], more);
    }
  }

  /** Of the entries passed, those beyond the old watermark were applied and moved the watermark, the others skipped. */
  ghost predicate Counted(entries: seq<JournalEntry>, n: nat, before: nat, watermark: nat, applied: nat, skipped: nat)
    requires n <= |entries|
  {
    && Increasing(entries) && before <= watermark
    && (forall k :: 0 <= k < n ==> entries[k].sequence <= watermark)
    && (watermark == before || exists k :: 0 <= k < n && entries[k].sequence == watermark)
    && applied == |Newer(entries[..n], before)| && skipped == n - applied
  }

  lemma NothingCounted(entries: seq<JournalEntry>, watermark: nat)
    requires Increasing(entries)
    ensures Counted(entries, 0, watermark, watermark, 0, 0)
  {
    assert entries[..0] == [] && Newer([], watermark) == [];
  }

  lemma CountOneMore(entries: seq<JournalEntry>, n: nat, before: nat, watermark: nat, applied: nat, skipped: nat)
    requires n < |entries| && Counted(entries, n, before, watermark, applied, skipped)
    ensures if watermark >= entries[n].sequence
            then Counted(entries, n + 1, before, watermark, applied, skipped + 1)
            else Counted(entries, n + 1, before, entries[n].sequence, applied + 1, skipped)
  {
    hide Retain;
    RetainStep(entries, n, (e: JournalEntry) => e.sequence > before);
  }

  lemma AllCounted(entries: seq<JournalEntry>, before: nat, watermark: nat, applied: nat, skipped: nat)
    requires Counted(entries, |entries|, before, watermark, applied, skipped)
    ensures applied == |Newer(entries, before)| && skipped == |entries| - applied
  {
    assert entries[..|entries|] == entries;
  }

  lemma ApplyRemoteErrors(c: BrokerState, e: JournalEntry, instance: Option<MimInstance>)
    ensures var r := ApplyRemote(c, e, instance);
      r.Err? ==> r.error == TransportError.Validation || r.error == TransportError.Unsupported
  {
  }

  lemma PermittedIncreases(p: BrokerState, v: View, since: nat)
    requires WellFormed(p) && since <= |p.journal| <= U64_MAX
    ensures Increasing(PermittedSince(p, v, since))
  {
    SyncIsDrawn(p, v, since);
  }

  lemma PermittedPasses(p: BrokerState, v: View, since: nat)
    ensures var entries := PermittedSince(p, v, since); forall k :: 0 <= k < |entries| ==> PassesSync(p, v, entries[k])
  {
    hide Retain, PassesSync;
  }

  lemma SequenceIsLength(p: BrokerState)
    requires WellFormed(p) && |p.journal| <= U64_MAX
    ensures p.sequence == |p.journal|
  {
  }

  lemma RemoteStep(v: View, c: BrokerState, p: BrokerState, pending: seq<JournalEntry>, horizon: nat,
                   instance: Option<MimInstance>)
    requires Invariant(v, c, p, pending, horizon) && pending != [] && c.applied < pending[0].sequence
    requires if pending[0].operation == PutObject
             then instance.Some? && ReadAs(p, v, pending[0].oid) == Ok(instance.value) else instance.None?
    requires ApplyRemote(c, pending[0], instance).Ok?
    ensures var n := ApplyRemote(c, pending[0], instance).value;
      && Invariant(v, n, p, pending[1..], horizon) && NewlyReadable(v, c, n)
      && n.applied == pending[0].sequence
  {
    hide WellFormed, View.CanRead, Faithful, Covers, ApplyRemote, ReadAs, LastIndex;
    assert ApplyHead(v, c, p, pending[0]) == ApplyRemote(c, pending[0], instance);
    HeadKeeps(v, c, p, pending, horizon);
    HeadIsInJournal(p, pending, horizon);
    HeadEffect(v, c, p, pending[0]);
  }
}
