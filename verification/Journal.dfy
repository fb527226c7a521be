/** The replication journal, and what a sequence of its entries says about each object. */
module Journal {
  import opened Sequences

  /** The largest value of the unsigned 64-bit sequence counter. */
  const U64_MAX: nat := 0xFFFF_FFFF_FFFF_FFFF

  function SaturatingIncrement(n: nat): nat {
    if n >= U64_MAX then U64_MAX else n + 1
  }

  datatype Operation = PutObject | GetByOid | GetByFilter | DeleteObject | Sync

  datatype JournalEntry = JournalEntry(sequence: nat, operation: Operation, oid: string)

  /** Position of the last entry about an object, or -1. */
  function LastIndex(j: seq<JournalEntry>, oid: string): (i: int)
    ensures -1 <= i < |j|
    ensures i >= 0 ==> j[i].oid == oid
    ensures forall k :: i < k < |j| ==> j[k].oid != oid
  {
    if j == [] then -1
    else if j[|j| - 1].oid == oid then |j| - 1
    else LastIndex(j[..|j| - 1], oid)
  }

  /** Position of the first entry about an object, or the length of the journal. */
  function FirstIndex(j: seq<JournalEntry>, oid: string): (i: nat)
    ensures i <= |j|
    ensures i < |j| ==> j[i].oid == oid
    ensures forall k :: 0 <= k < i ==> j[k].oid != oid
  {
    if j == [] || j[0].oid == oid then 0 else 1 + FirstIndex(j[1..], oid)
  }

  /** The objects put, each at the place of its first Put. */
  function FirstPuts(j: seq<JournalEntry>): seq<string> {
    if j == [] then [] else
      var before, e := FirstPuts(j[..|j| - 1]), j[|j| - 1];
      if e.operation == PutObject && e.oid !in before then before + [e.oid] else before
  }

  /** The objects whose status a replay of the journal leaves at deleted. */
  function Deleted(j: seq<JournalEntry>): set<string> {
    if j == [] then {} else
      var before, e := Deleted(j[..|j| - 1]), j[|j| - 1];
      if e.operation == DeleteObject then before + {e.oid}
      else if e.operation == PutObject then before - {e.oid}
      else before
  }

  /** Only Puts, and Deletes of objects put before: what a broker records. */
  ghost predicate Recordable(j: seq<JournalEntry>) {
    && (forall i :: 0 <= i < |j| ==> j[i].operation == PutObject || j[i].operation == DeleteObject)
    && (forall i :: 0 <= i < |j| && j[i].operation == DeleteObject ==> j[i].oid in FirstPuts(j[..i]))
  }

  /** Entry i carries sequence number i + 1, up to the point where the counter saturates. */
  ghost predicate Numbered(j: seq<JournalEntry>) {
    forall i :: 0 <= i < |j| ==> j[i].sequence == if i + 1 <= U64_MAX then i + 1 else U64_MAX
  }

  lemma Append(j: seq<JournalEntry>, e: JournalEntry)
    ensures (j + [e])[..|j|] == j
    ensures FirstPuts(j + [e]) ==
            if e.operation == PutObject && e.oid !in FirstPuts(j) then FirstPuts(j) + [e.oid] else FirstPuts(j)
    ensures Deleted(j + [e]) ==
            if e.operation == DeleteObject then Deleted(j) + {e.oid}
            else if e.operation == PutObject then Deleted(j) - {e.oid} else Deleted(j)
    ensures forall oid :: LastIndex(j + [e], oid) == if e.oid == oid then |j| else LastIndex(j, oid)
    ensures Recordable(j) && (e.operation == PutObject || (e.operation == DeleteObject && e.oid in FirstPuts(j)))
            ==> Recordable(j + [e])
  {
    hide Recordable;
    var k := j + [e];
    assert k[..|j|] == j && k[|j|] == e;
    if Recordable(j) && (e.operation == PutObject || (e.operation == DeleteObject && e.oid in FirstPuts(j))) {
      AppendRecordable(j, e);
    }
  }

  lemma AppendRecordable(j: seq<JournalEntry>, e: JournalEntry)
    requires Recordable(j) && (e.operation == PutObject || (e.operation == DeleteObject && e.oid in FirstPuts(j)))
    ensures Recordable(j + [e])
  {
    hide FirstPuts;
    var k := j + [e];
    assert k[..|j|] == j;
    forall i | 0 <= i < |j|
      ensures k[..i] == j[..i] && k[i] == j[i]
    {
    }
  }

  /** An object is deleted exactly when its last entry is a Delete. */
  lemma {:induction false} DeletedByLastEntry(j: seq<JournalEntry>, oid: string)
    requires Recordable(j)
    ensures oid in Deleted(j) <==> LastIndex(j, oid) >= 0 && j[LastIndex(j, oid)].operation == DeleteObject
  {
    if j == [] {
    } else {
      var before := j[..|j| - 1];
      assert forall i :: 0 <= i < |before| ==> before[..i] == j[..i];
      DeletedByLastEntry(before, oid);
    }
  }

  /** An object is among the first puts exactly when the journal mentions it; those are distinct, and ordered
      as their first mentions are. */
  lemma {:induction false} FirstPutsAreFirstMentions(j: seq<JournalEntry>)
    requires Recordable(j)
    ensures forall oid :: oid in FirstPuts(j) <==> FirstIndex(j, oid) < |j|
    ensures forall a, b :: 0 <= a < b < |FirstPuts(j)| ==>
              FirstIndex(j, FirstPuts(j)[a]) < FirstIndex(j, FirstPuts(j)[b])
  {
    hide FirstIndex;
    if j == [] {
    } else {
      var before, e := j[..|j| - 1], j[|j| - 1];
      assert forall i :: 0 <= i < |before| ==> before[..i] == j[..i];
      FirstPutsAreFirstMentions(before);
      forall oid
        ensures FirstIndex(j, oid) ==
                if FirstIndex(before, oid) < |before| then FirstIndex(before, oid)
                else if e.oid == oid then |before| else |j|
      {
        FirstIndexOfPrefix(j, oid);
      }
    }
  }

  lemma FirstIndexOfPrefix(j: seq<JournalEntry>, oid: string)
    requires j != []
    ensures var before := j[..|j| - 1];
      FirstIndex(j, oid) ==
      if FirstIndex(before, oid) < |before| then FirstIndex(before, oid)
      else if j[|j| - 1].oid == oid then |before| else |j|
  {
    var before := j[..|j| - 1];
    var i := FirstIndex(before, oid);
    var k := FirstIndex(j, oid);
    assert forall x :: 0 <= x < |before| ==> before[x] == j[x];
    assert i < |before| ==> j[i].oid == oid;
  }

  function Suffix(j: seq<JournalEntry>, since: nat): seq<JournalEntry> {
    if since <= |j| then j[since..] else []
  }

  lemma OlderThanSuffix(j: seq<JournalEntry>, since: nat)
    requires Numbered(j) && since <= |j| && since <= U64_MAX
    ensures Retain(j, (e: JournalEntry) => e.sequence > since)
              == Retain(j[since..], (e: JournalEntry) => e.sequence > since)
  {
    hide Retain;
    var newer := (e: JournalEntry) => e.sequence > since;
    var older := j[..since];
    assert j == older + j[since..];
    RetainConcat(older, j[since..], newer);
    assert forall i :: 0 <= i < |older| ==> older[i] == j[i];
    RetainNone(older, newer);
  }

  /** Selecting by sequence number yields the journal after that position, exactly while the counter has not
      saturated below the end of the journal. */
  lemma SuffixBySequence(j: seq<JournalEntry>, since: nat)
    requires Numbered(j) && since <= U64_MAX
    ensures Retain(j, (e: JournalEntry) => e.sequence > since) == Suffix(j, since) <==>
              since < U64_MAX || |j| <= U64_MAX
  {
    hide Retain;
    var newer := (e: JournalEntry) => e.sequence > since;
    if since > |j| {
      RetainNone(j, newer);
    } else {
      OlderThanSuffix(j, since);
      var tail := j[since..];
      assert forall i :: 0 <= i < |tail| ==> tail[i] == j[since + i];
      if since < U64_MAX {
        RetainAll(tail, newer);
      } else {
        RetainNone(tail, newer);
      }
    }
  }
}
