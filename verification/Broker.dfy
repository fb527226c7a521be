/** The exchange broker: an insertion-ordered store with soft deletion and a replication journal. */
module Broker {
  import opened Wrappers
  import opened Text
  import opened Sequences
  import opened Instance
  import opened Filter
  import opened Journal

  /** The model registry, seen by the broker only through the validity of instances. */
  datatype Registry = Registry(version: string, valid: MimInstance -> bool)

  datatype TransportError =
    | NotFound
    | Inactive
    | Validation
    | InvalidRequest
    | InvalidFilter(cause: FilterError)
    | Forbidden
    | Unsupported
    | Network

  /** The broker's state as a value. `keys` is the insertion order of `store`. */
  datatype BrokerState = BrokerState(
    registry: Registry,
    keys: seq<string>,
    store: map<string, MimInstance>,
    inactive: set<string>,
    journal: seq<JournalEntry>,
    sequence: nat,
    applied: nat)
  {
    predicate Active(oid: string) {
      oid in store && oid !in inactive
    }
  }

  function New(registry: Registry): BrokerState {
    BrokerState(registry, [], map[], {}, [], 0, 0)
  }

  // ---- Writes

  function Recorded(b: BrokerState, operation: Operation, oid: string): BrokerState {
    var next := SaturatingIncrement(b.sequence);
    b.(sequence := next, journal := b.journal + [JournalEntry(next, operation, oid)])
  }

  /** A validated Put; an invalid instance changes nothing. */
  function Put(b: BrokerState, i: MimInstance): BrokerState {
    if !b.registry.valid(i) then b
    else Recorded(b.(keys := if i.oid in b.store then b.keys else b.keys + [i.oid],
                     store := b.store[i.oid := i],
                     inactive := b.inactive - {i.oid}), PutObject, i.oid)
  }

  /** A soft delete; an unknown object changes nothing. */
  function Delete(b: BrokerState, oid: string): BrokerState {
    if oid !in b.store then b
    else Recorded(b.(inactive := b.inactive + {oid}), DeleteObject, oid)
  }

  // ---- Applying replicated entries

  function ApplyRemote(b: BrokerState, e: JournalEntry, fetched: Option<MimInstance>)
    : Result<BrokerState, TransportError> {
    match e.operation
    case PutObject =>
      if fetched.None? || !b.registry.valid(fetched.value) then Err(Validation)
      else Ok(Put(b, fetched.value).(applied := e.sequence))
    case DeleteObject => Ok(Delete(b, e.oid).(applied := e.sequence))
    case _ => Err(Unsupported)
  }

  function ApplyFrom(b: BrokerState, publisher: BrokerState, e: JournalEntry): Result<BrokerState, TransportError> {
    if e.operation == PutObject && e.oid !in publisher.store then Err(NotFound)
    else ApplyRemote(b, e, if e.operation == PutObject then Some(publisher.store[e.oid]) else None)
  }

  // ---- Reads

  function SyncSince(b: BrokerState, since: nat): seq<JournalEntry> {
    Retain(b.journal, (e: JournalEntry) => e.sequence > since)
  }

  function ReadObject(b: BrokerState, oid: string): Result<MimInstance, TransportError> {
    if oid in b.inactive then Err(Inactive)
    else if oid !in b.store then Err(NotFound)
    else Ok(b.store[oid])
  }

  /** The keys are exactly the store's keys, each once. */
  ghost predicate Indexed(b: BrokerState) {
    && (forall k :: k in b.keys <==> k in b.store)
    && (forall i, j :: 0 <= i < j < |b.keys| ==> b.keys[i] != b.keys[j])
  }

  function Values(b: BrokerState): (vs: seq<MimInstance>)
    requires Indexed(b)
    ensures |vs| == |b.keys|
    ensures forall i :: 0 <= i < |vs| ==> vs[i] == b.store[b.keys[i]]
  {
    seq(|b.keys|, i requires 0 <= i < |b.keys| => b.store[b.keys[i]])
  }

  datatype FilterRequest = FilterRequest(
    filter: Option<string>,
    className: string,
    propertyName: Option<string>,
    propertyValue: Option<string>,
    limit: Option<nat>,
    offset: Option<nat>)

  datatype FilterResponse = FilterResponse(instances: seq<MimInstance>, count: nat, total: nat)

  predicate PropertyMatches(i: MimInstance, r: FilterRequest) {
    match (r.propertyName, r.propertyValue)
    case (Some(name), Some(expected)) =>
      var p := i.GetProperty(name);
      p.Some? && p.value.value.Some? && p.value.value.value == JString(expected)
    case (Some(name), None) => i.GetProperty(name).Some?
    case (None, Some(_)) => false
    case (None, None) => true
  }

  function Paginate(instances: seq<MimInstance>, offset: Option<nat>, limit: Option<nat>): seq<MimInstance> {
    var skip := if offset.None? then 0 else offset.value;
    var sliced := if skip <= |instances| then instances[skip..] else [];
    if limit.None? || |sliced| <= limit.value then sliced else sliced[..limit.value]
  }

  function Page(found: seq<MimInstance>, r: FilterRequest): FilterResponse {
    var page := Paginate(found, r.offset, r.limit);
    FilterResponse(page, |page|, |found|)
  }

  function Query(b: BrokerState, r: FilterRequest): Result<FilterResponse, TransportError>
    requires Indexed(b)
  {
    match r.filter
    case Some(expression) =>
      (match Parse(expression)
       case Err(e) => Err(InvalidFilter(e))
       case Ok(f) =>
         Ok(Page(Retain(Values(b), (i: MimInstance) => i.oid !in b.inactive && Matches(i, f)), r)))
    case None =>
      if Trim(r.className) == "" then Err(InvalidRequest)
      else Ok(Page(Retain(Values(b), (i: MimInstance) =>
        i.className == r.className && i.oid !in b.inactive && PropertyMatches(i, r)), r))
  }

  // ---- What every reachable state satisfies

  /** The journal determines everything about the state but the instances and the watermark. */
  ghost predicate WellFormed(b: BrokerState) {
    && b.sequence == (if |b.journal| <= U64_MAX then |b.journal| else U64_MAX)
    && Numbered(b.journal) && Recordable(b.journal)
    && b.keys == FirstPuts(b.journal)
    && b.inactive == Deleted(b.journal)
    && Indexed(b)
    && (forall oid :: oid in b.store ==> b.store[oid].oid == oid && b.registry.valid(b.store[oid]))
  }

  lemma NewIsWellFormed(registry: Registry)
    ensures WellFormed(New(registry))
  {
  }

  lemma RecordedIsWellFormed(b: BrokerState, b': BrokerState, operation: Operation, oid: string)
    requires WellFormed(b)
    requires operation == PutObject || (operation == DeleteObject && oid in b.store)
    requires b' == Recorded(b.(keys := b'.keys, store := b'.store, inactive := b'.inactive), operation, oid)
    requires b'.keys == if operation == PutObject && oid !in b.store then b.keys + [oid] else b.keys
    requires b'.inactive == if operation == PutObject then b.inactive - {oid} else b.inactive + {oid}
    requires Indexed(b') && forall o :: o in b'.store ==> b'.store[o].oid == o && b'.registry.valid(b'.store[o])
    ensures WellFormed(b')
  {
    Append(b.journal, b'.journal[|b.journal|]);
  }

  lemma PutIsWellFormed(b: BrokerState, i: MimInstance)
    requires WellFormed(b)
    ensures WellFormed(Put(b, i))
  {
    if b.registry.valid(i) {
      RecordedIsWellFormed(b, Put(b, i), PutObject, i.oid);
    }
  }

  lemma DeleteIsWellFormed(b: BrokerState, oid: string)
    requires WellFormed(b)
    ensures WellFormed(Delete(b, oid))
  {
    if oid in b.store {
      RecordedIsWellFormed(b, Delete(b, oid), DeleteObject, oid);
    }
  }

  lemma ApplyRemoteIsWellFormed(b: BrokerState, e: JournalEntry, fetched: Option<MimInstance>)
    requires WellFormed(b)
    ensures var r := ApplyRemote(b, e, fetched); r.Ok? ==> WellFormed(r.value)
  {
    if e.operation == PutObject && fetched.Some? {
      PutIsWellFormed(b, fetched.value);
    }
    DeleteIsWellFormed(b, e.oid);
  }

  // ---- What replaying one entry does, in every case

  /** A replayed Put writes the fetched instance as a write of its own would, a replayed Delete deletes, and both move
      the watermark to the entry; an invalid or missing instance, or another operation, changes nothing. */
  lemma ApplyRemoteExactly(b: BrokerState, e: JournalEntry, fetched: Option<MimInstance>)
    ensures var r := ApplyRemote(b, e, fetched);
      match e.operation
      case PutObject =>
        if fetched.Some? && b.registry.valid(fetched.value)
        then r.Ok? && r.value == Perform(b, PutWrite(fetched.value)).(applied := e.sequence)
        else r == Err(TransportError.Validation)
      case DeleteObject => r.Ok? && r.value == Perform(b, DeleteWrite(e.oid)).(applied := e.sequence)
      case _ => r == Err(TransportError.Unsupported)
  {
  }

  /** From a publisher at hand, a Put takes the instance the publisher has now, deleted or not. */
  lemma ApplyFromExactly(b: BrokerState, p: BrokerState, e: JournalEntry)
    ensures ApplyFrom(b, p, e) ==
      if e.operation != PutObject then ApplyRemote(b, e, None)
      else if e.oid in p.store then ApplyRemote(b, e, Some(p.store[e.oid]))
      else Err(TransportError.NotFound)
  {
  }

  /** A write changes one object: a valid Put stores it and makes it active, a Delete of a known object makes it
      inactive and keeps it; anything else changes nothing at all. */
  lemma WritesExactly(b: BrokerState, w: Write)
    ensures var b' := Perform(b, w);
      match w
      case PutWrite(i) =>
        if !b.registry.valid(i) then b' == b
        else b'.store == b.store[i.oid := i] && b'.Active(i.oid) && b'.inactive + {i.oid} == b.inactive + {i.oid}
             && b'.keys == (if i.oid in b.store then b.keys else b.keys + [i.oid])
             && b'.journal == b.journal + [JournalEntry(b'.sequence, PutObject, i.oid)] && b'.applied == b.applied
      case DeleteWrite(oid) =>
        if oid !in b.store then b' == b
        else b'.store == b.store && b'.keys == b.keys && b'.inactive == b.inactive + {oid}
             && b'.journal == b.journal + [JournalEntry(b'.sequence, DeleteObject, oid)] && b'.applied == b.applied
    ensures Perform(b, w).sequence == b.sequence
            || Perform(b, w).sequence == if b.sequence < U64_MAX then b.sequence + 1 else U64_MAX
  {
  }

  /** A deleted object is reported as inactive, one never stored as not found. */
  lemma ReadObjectExactly(b: BrokerState, oid: string)
    ensures ReadObject(b, oid).Ok? <==> b.Active(oid)
    ensures b.Active(oid) ==> ReadObject(b, oid).value == b.store[oid]
    ensures ReadObject(b, oid) == Err(Inactive) <==> oid in b.inactive
    ensures ReadObject(b, oid) == Err(TransportError.NotFound) <==> oid !in b.inactive && oid !in b.store
  {
  }

  // ---- Runs

  datatype Write = PutWrite(instance: MimInstance) | DeleteWrite(oid: string)

  function Perform(b: BrokerState, w: Write): BrokerState {
    match w
    case PutWrite(i) => Put(b, i)
    case DeleteWrite(oid) => Delete(b, oid)
  }

  function Run(b: BrokerState, ws: seq<Write>): BrokerState
    decreases |ws|
  {
    if ws == [] then b else Run(Perform(b, ws[0]), ws[1..])
  }

  /** A run performs its writes one after the other. */
  lemma {:induction false} RunPerforms(b: BrokerState, ws: seq<Write>, w: Write)
    ensures Run(b, []) == b && Run(b, ws + [w]) == Perform(Run(b, ws), w)
    decreases |ws|
  {
    hide Perform;
    if ws == [] {
      assert [w][1..] == [] && [] + [w] == [w];
    } else {
      RunPerforms(Perform(b, ws[0]), ws[1..], w);
      assert (ws + [w])[1..] == ws[1..] + [w];
    }
  }

  lemma {:induction false} RunIsWellFormed(b: BrokerState, ws: seq<Write>)
    requires WellFormed(b)
    ensures WellFormed(Run(b, ws)) && Run(b, ws).registry == b.registry && b.journal <= Run(b, ws).journal
    decreases |ws|
  {
    if ws == [] {
    } else {
      match ws[0] {
        case PutWrite(i) => PutIsWellFormed(b, i);
        case DeleteWrite(oid) => DeleteIsWellFormed(b, oid);
      }
      RunIsWellFormed(Perform(b, ws[0]), ws[1..]);
    }
  }

  /** In every state a fresh broker reaches by writes, the journal alone tells which objects exist, in which
      order, and which are deleted. */
  lemma JournalDeterminesStatus(registry: Registry, ws: seq<Write>, oid: string)
    ensures var b := Run(New(registry), ws); var j := b.journal;
      && (|j| <= U64_MAX ==> b.sequence == |j| && forall i :: 0 <= i < |j| ==> j[i].sequence == i + 1)
      && (|j| > U64_MAX ==> b.sequence == U64_MAX)
      && (oid in b.store <==> FirstIndex(j, oid) < |j|)
      && (oid in b.store <==> oid in b.keys)
      && (forall x, y :: 0 <= x < y < |b.keys| ==> FirstIndex(j, b.keys[x]) < FirstIndex(j, b.keys[y]))
      && (oid in b.inactive ==> oid in b.store)
      && (oid in b.store ==> LastIndex(j, oid) >= 0)
      && (oid in b.inactive <==> LastIndex(j, oid) >= 0 && j[LastIndex(j, oid)].operation == DeleteObject)
  {
    NewIsWellFormed(registry);
    RunIsWellFormed(New(registry), ws);
    StatusOf(Run(New(registry), ws), oid);
  }

  lemma EntryIsNumbered(b: BrokerState, i: nat)
    requires WellFormed(b) && |b.journal| <= U64_MAX && i < |b.journal|
    ensures b.journal[i].sequence == i + 1
  {
  }

  lemma StatusOf(b: BrokerState, oid: string)
    requires WellFormed(b)
    ensures oid in b.store <==> LastIndex(b.journal, oid) >= 0
    ensures oid in b.store <==> FirstIndex(b.journal, oid) < |b.journal|
    ensures oid in b.inactive <==> oid in b.store && b.journal[LastIndex(b.journal, oid)].operation == DeleteObject
    ensures forall x, y :: 0 <= x < y < |b.keys| ==> FirstIndex(b.journal, b.keys[x]) < FirstIndex(b.journal, b.keys[y])
  {
    DeletedByLastEntry(b.journal, oid);
    FirstPutsAreFirstMentions(b.journal);
    var first, last := FirstIndex(b.journal, oid), LastIndex(b.journal, oid);
    assert first < |b.journal| ==> b.journal[first].oid == oid;
  }

  /** What sync returns: the journal after the position, exactly while the counter has not saturated there. */
  lemma SyncIsSuffix(b: BrokerState, since: nat)
    requires WellFormed(b) && since <= U64_MAX
    ensures SyncSince(b, since) == Suffix(b.journal, since) <==> since < U64_MAX || |b.journal| <= U64_MAX
  {
    SuffixBySequence(b.journal, since);
  }

  /** Whatever the state, also one loaded with its counter at the end: whoever asks from the latest position on sees the
      next write exactly while the counter can still grow. */
  lemma NextWriteIsSeenExactly(b: BrokerState, i: MimInstance)
    requires b.registry.valid(i)
    ensures var entry := JournalEntry(SaturatingIncrement(b.sequence), PutObject, i.oid);
      && Put(b, i).journal == b.journal + [entry] && Put(b, i).sequence == entry.sequence
      && SyncSince(Put(b, i), b.sequence) == SyncSince(b, b.sequence) + (if b.sequence < U64_MAX then [entry] else [])
  {
    hide Retain;
    var entry := JournalEntry(SaturatingIncrement(b.sequence), PutObject, i.oid);
    var newer := (e: JournalEntry) => e.sequence > b.sequence;
    RetainConcat(b.journal, [entry], newer);
    if newer(entry) {
      RetainAll([entry], newer);
    } else {
      RetainNone([entry], newer);
    }
  }

  /** What a request asks of an instance: by filter, the class and, of every predicate, a property that carries its
      text; otherwise the class, and a property that is there and, where a text is given, has exactly that text as its
      value. */
  ghost predicate Selects(r: FilterRequest, i: MimInstance) {
    match r.filter
    case Some(expression) =>
      var f := Parse(expression);
      && f.Ok? && i.className == f.value.className
      && forall k :: 0 <= k < |f.value.predicates| ==>
           Carries(i, f.value.predicates[k].name, f.value.predicates[k].value)
    case None =>
      && i.className == r.className
      && (r.propertyValue.Some? ==> r.propertyName.Some?)
      && (r.propertyName.Some? ==>
            exists k :: FirstNamed(i.properties, r.propertyName.value, k)
              && (r.propertyValue.Some? ==> i.properties[k].value == Some(JString(r.propertyValue.value))))
  }

  /** The slice that the page bounds cut out, and the length of both. */
  ghost predicate IsPageOf(answer: FilterResponse, all: seq<MimInstance>, r: FilterRequest) {
    var lo := if r.offset.None? then 0 else Min(r.offset.value, |all|);
    var hi := if r.limit.None? then |all| else Min(lo + r.limit.value, |all|);
    answer.instances == all[lo..hi] && answer.count == hi - lo && answer.total == |all|
  }

  /** A request fails exactly when its filter does not parse, or it has none and names no class. What it selects is, in
      store order, exactly the active instances it asks for; the answer is the slice the page bounds cut out of that,
      with the length of both. */
  lemma QuerySelectsExactly(b: BrokerState, r: FilterRequest, i: MimInstance)
    requires Indexed(b) && forall oid :: oid in b.store ==> b.store[oid].oid == oid
    ensures Query(b, r).Ok? <==> if r.filter.Some? then Parse(r.filter.value).Ok? else Trim(r.className) != ""
    ensures Query(b, r).Ok? ==>
              var all := Unsliced(b, r);
              && (i in all <==> b.Active(i.oid) && b.store[i.oid] == i && Selects(r, i))
              && IsSubsequence(all, Values(b))
              && IsPageOf(Query(b, r).value, all, r)
  {
    hide Parse, Query, IsSubsequence, Selects, Trim, Page, Values;
    QuerySucceedsExactly(b, r);
    if Query(b, r).Ok? {
      var found := Query(b, Unpaged(r)).value.instances;
      PageIsSlice(found, r);
      if r.filter.Some? {
        FilterSelects(b, r, i, Parse(r.filter.value).value);
      } else {
        ClassSelects(b, r, i);
      }
    }
  }

  /** What the request gives without page bounds. */
  ghost function Unsliced(b: BrokerState, r: FilterRequest): seq<MimInstance>
    requires Indexed(b)
  {
    match Query(b, Unpaged(r))
    case Err(_) => []
    case Ok(whole) => whole.instances
  }

  /** The same request for the whole result. */
  function Unpaged(r: FilterRequest): FilterRequest {
    r.(offset := None, limit := None)
  }

  lemma QuerySucceedsExactly(b: BrokerState, r: FilterRequest)
    requires Indexed(b)
    ensures Query(b, r).Ok? <==> if r.filter.Some? then Parse(r.filter.value).Ok? else Trim(r.className) != ""
    ensures Query(b, Unpaged(r)).Ok? == Query(b, r).Ok?
  {
    hide Parse, Trim, Retain, Page;
  }

  lemma PageIsSlice(found: seq<MimInstance>, r: FilterRequest)
    ensures IsPageOf(Page(found, r), found, r)
    ensures Page(found, Unpaged(r)).instances == found
  {
  }

  lemma FilterSelects(b: BrokerState, r: FilterRequest, i: MimInstance, f: FilterExpression)
    requires Indexed(b) && forall oid :: oid in b.store ==> b.store[oid].oid == oid
    requires r.filter.Some? && Parse(r.filter.value) == Ok(f)
    ensures Query(b, Unpaged(r)).Ok?
    ensures var all := Query(b, Unpaged(r)).value.instances;
      && Query(b, r) == Ok(Page(all, r))
      && (i in all <==> b.Active(i.oid) && b.store[i.oid] == i && Selects(r, i))
      && IsSubsequence(all, Values(b))
  {
    hide Parse, Retain, IsSubsequence, AllHold, Carries, Holds, Values, Page;
    var keep := (x: MimInstance) => x.oid !in b.inactive && Matches(x, f);
    var all := Retain(Values(b), keep);
    PageIsSlice(all, r);
    FoundExactly(b, keep, i, all);
    MatchesMeans(i, f);
  }

  lemma ClassSelects(b: BrokerState, r: FilterRequest, i: MimInstance)
    requires Indexed(b) && forall oid :: oid in b.store ==> b.store[oid].oid == oid
    requires r.filter.None? && Trim(r.className) != ""
    ensures Query(b, Unpaged(r)).Ok?
    ensures var all := Query(b, Unpaged(r)).value.instances;
      && Query(b, r) == Ok(Page(all, r))
      && (i in all <==> b.Active(i.oid) && b.store[i.oid] == i && Selects(r, i))
      && IsSubsequence(all, Values(b))
  {
    hide Trim, Retain, IsSubsequence, Values, Page;
    var u := Unpaged(r);
    var keep := (x: MimInstance) => x.className == r.className && x.oid !in b.inactive && PropertyMatches(x, r);
    var all := Retain(Values(b), keep);
    SameSelection(Values(b), keep,
                  (x: MimInstance) => x.className == u.className && x.oid !in b.inactive && PropertyMatches(x, u));
    PageIsSlice(all, r);
    FoundExactly(b, keep, i, all);
    PropertyMatchesMeans(i, r);
  }

  function Min(a: nat, b: nat): nat {
    if a <= b then a else b
  }

  lemma FoundExactly(b: BrokerState, keep: MimInstance -> bool, i: MimInstance, found: seq<MimInstance>)
    requires Indexed(b) && forall oid :: oid in b.store ==> b.store[oid].oid == oid
    requires found == Retain(Values(b), keep)
    ensures i in found <==> i.oid in b.store && b.store[i.oid] == i && keep(i)
    ensures IsSubsequence(found, Values(b))
  {
    hide Retain, IsSubsequence;
    var all := Values(b);
    assert i in all <==> i.oid in b.store && b.store[i.oid] == i by {
      if i.oid in b.store && b.store[i.oid] == i {
        var k :| 0 <= k < |b.keys| && b.keys[k] == i.oid;
        assert all[k] == i;
      }
    }
    RetainAll(all, x => true);
    RetainSubsequence(all, keep, x => true);
  }

  /** For a printed filter, parsing adds and loses nothing: it selects by the filter's own class and predicates. */
  lemma PrintedFilterSelects(r: FilterRequest, f: FilterExpression, styles: seq<Style>, i: MimInstance)
    requires Printable(f) && |styles| == |f.predicates|
    requires r.filter == Some(Print(f, styles))
    ensures Selects(r, i) <==>
      i.className == f.className && forall k :: 0 <= k < |f.predicates| ==>
        Carries(i, f.predicates[k].name, f.predicates[k].value)
  {
    hide Parse, Print, Carries, Printable;
    FilterRoundTripsExactly(f, styles);
  }

  lemma MatchesMeans(i: MimInstance, f: FilterExpression)
    ensures Matches(i, f) <==>
      && i.className == f.className
      && forall k :: 0 <= k < |f.predicates| ==> Carries(i, f.predicates[k].name, f.predicates[k].value)
  {
    hide Holds, Carries;
    forall k | 0 <= k < |f.predicates|
      ensures Holds(i, f.predicates[k]) <==> Carries(i, f.predicates[k].name, f.predicates[k].value)
    {
      HoldsExactly(i, f.predicates[k]);
    }
  }

  lemma PropertyMatchesMeans(i: MimInstance, r: FilterRequest)
    requires r.filter.None?
    ensures Selects(r, i) <==> i.className == r.className && PropertyMatches(i, r)
  {
    hide FindProperty, FirstNamed;
    if r.propertyName.Some? {
      var name := r.propertyName.value;
      SomeIsFirst(i.properties, name);
      forall k | FirstNamed(i.properties, name, k)
        ensures 0 <= k < |i.properties| && i.GetProperty(name) == Some(i.properties[k])
      {
        NamedInside(i.properties, name, k);
        FoundIsFirst(i.properties, name, k);
      }
    }
  }

  // ---- Rebuilding a store

  /** The store an insertion-ordered map collects from a list of instances. */
  function Collected(instances: seq<MimInstance>): (seq<string>, map<string, MimInstance>) {
    if instances == [] then ([], map[]) else
      var (keys, store) := Collected(instances[..|instances| - 1]);
      var i := instances[|instances| - 1];
      (if i.oid in store then keys else keys + [i.oid], store[i.oid := i])
  }

  function Restored(registry: Registry, instances: seq<MimInstance>, deleted: seq<string>, entries: seq<JournalEntry>,
                    latest: nat, watermark: nat): BrokerState
  {
    var (keys, store) := Collected(instances);
    BrokerState(registry, keys, store, (set oid | oid in deleted), entries, latest, watermark)
  }

  // ---- The broker object

  class ExchangeBroker {
    const registry: Registry
    var keys: seq<string>
    var store: map<string, MimInstance>
    var inactive: set<string>
    var journal: seq<JournalEntry>
    var sequence: nat
    var applied: nat

    function State(): BrokerState
      reads this
    {
      BrokerState(registry, keys, store, inactive, journal, sequence, applied)
    }

    constructor (registry: Registry)
      ensures State() == New(registry)
    {
      this.registry := registry;
      keys, store, inactive, journal, sequence, applied := [], map[], {}, [], 0, 0;
    }

    constructor FromSnapshot(registry: Registry, instances: seq<MimInstance>, deleted: seq<string>,
                             entries: seq<JournalEntry>, latest: nat, watermark: nat)
      ensures State() == Restored(registry, instances, deleted, entries, latest, watermark)
    {
      this.registry := registry;
      keys, store := [], map[];
      inactive := (set oid | oid in deleted);
      journal, sequence, applied := entries, latest, watermark;
      new;
      for n := 0 to |instances|
        invariant Collected(instances[..n]) == (keys, store)
        invariant this.registry == registry && inactive == (set oid | oid in deleted)
        invariant journal == entries && sequence == latest && applied == watermark
      {
        var i := instances[n];
        assert instances[..n + 1][..n] == instances[..n];
        if i.oid !in store {
          keys := keys + [i.oid];
        }
        store := store[i.oid := i];
      }
      assert instances[..|instances|] == instances;
    }

    method RecordJournal(operation: Operation, oid: string)
      modifies this`sequence, this`journal
      ensures State() == Recorded(old(State()), operation, oid)
    {
      sequence := SaturatingIncrement(sequence);
      journal := journal + [JournalEntry(sequence, operation, oid)];
    }

    method PutObject(instance: MimInstance) returns (created: Result<bool, TransportError>)
      modifies this
      ensures State() == Put(old(State()), instance)
      ensures created.Ok? <==> registry.valid(instance)
      ensures created.Ok? ==> created.value == (instance.oid !in old(store))
    {
      if !registry.valid(instance) {
        return Err(Validation);
      }
      var oid := instance.oid;
      var isNew := oid !in store;
      if isNew {
        keys := keys + [oid];
      }
      store := store[oid := instance];
      inactive := inactive - {oid};
      RecordJournal(Operation.PutObject, oid);
      return Ok(isNew);
    }

    method DeleteObject(oid: string) returns (deleted: Result<bool, TransportError>)
      modifies this
      ensures State() == Delete(old(State()), oid)
      ensures deleted.Ok? <==> oid in old(store)
      ensures deleted.Ok? ==> deleted.value == (oid !in old(inactive))
    {
      if oid !in store {
        return Err(NotFound);
      }
      var newly := oid !in inactive;
      inactive := inactive + {oid};
      RecordJournal(Operation.DeleteObject, oid);
      return Ok(newly);
    }

    method SyncEntries(since: nat) returns (entries: seq<JournalEntry>)
      ensures entries == SyncSince(State(), since)
    {
      entries := [];
      for n := 0 to |journal|
        invariant entries == Retain(journal[..n], (e: JournalEntry) => e.sequence > since)
      {
        RetainStep(journal, n, (e: JournalEntry) => e.sequence > since);
        if journal[n].sequence > since {
          entries := entries + [journal[n]];
        }
      }
      assert journal[..|journal|] == journal;
    }

    method ApplyRemoteEntry(e: JournalEntry, fetched: Option<MimInstance>) returns (r: Result<Unit, TransportError>)
      modifies this
      ensures var outcome := ApplyRemote(old(State()), e, fetched);
        match outcome
        case Ok(next) => r.Ok? && State() == next
        case Err(error) => r == Err(error) && State() == old(State())
    {
      match e.operation
      case PutObject =>
        if fetched.None? {
          return Err(Validation);
        }
        var put := PutObject(fetched.value);
        if put.Err? {
          return Err(Validation);
        }
        applied := e.sequence;
        return Ok(Unit);
      case DeleteObject =>
        if e.oid in store {
          var _ := DeleteObject(e.oid);
        }
        applied := e.sequence;
        return Ok(Unit);
      case _ =>
        return Err(Unsupported);
    }

    method ApplyEntryFrom(publisher: ExchangeBroker, e: JournalEntry) returns (r: Result<Unit, TransportError>)
      requires publisher != this
      modifies this
      ensures var outcome := ApplyFrom(old(State()), publisher.State(), e);
        match outcome
        case Ok(next) => r.Ok? && State() == next
        case Err(error) => r == Err(error) && State() == old(State())
    {
      if e.operation == Operation.PutObject {
        if e.oid !in publisher.store {
          return Err(NotFound);
        }
        r := ApplyRemoteEntry(e, Some(publisher.store[e.oid]));
      } else {
        r := ApplyRemoteEntry(e, None);
      }
    }
  }
}
