/** An audit log over the write-once sink, from the opening of an empty file on. */
module WormLog {
  import opened Wrappers
  import opened Text
  import opened AuditChain
  import opened AuditLog
  import Worm

  // ---- The file as the log reads it back

  /** No proper beginning of an encoded envelope is blank or an envelope. */
  ghost predicate BrokenWhenCut(codec: Worm.Codec) {
    forall e, n :: 0 < n < |codec.encode(e)| ==> LineFor(codec, codec.encode(e)[..n]) == Malformed
  }

  function LineFor(codec: Worm.Codec, text: string): Line {
    if codec.blank(text) then Blank else
      match codec.decode(text)
      case None => Malformed
      case Some(e) => Line(e)
  }

  function ReadLines(codec: Worm.Codec, text: string): seq<Line>
    decreases |text|
  {
    if text == "" then [] else
      var n := Find(text, '\n');
      [LineFor(codec, text[..n])] + ReadLines(codec, if n < |text| then text[n + 1..] else "")
  }

  lemma ReadNothing(codec: Worm.Codec)
    ensures ReadLines(codec, "") == []
  {
  }

  lemma ReadFirst(codec: Worm.Codec, text: string, n: nat)
    requires text != "" && n == Find(text, '\n')
    ensures ReadLines(codec, text) ==
      [LineFor(codec, text[..n])] + ReadLines(codec, if n < |text| then text[n + 1..] else "")
  {
    hide Find, LineFor;
  }

  lemma {:induction false} ReadLinesSplits(codec: Worm.Codec, head: string, more: string)
    requires Worm.Terminated(head)
    ensures ReadLines(codec, head + more) == ReadLines(codec, head) + ReadLines(codec, more)
    decreases |head|
  {
    hide ReadLines, Find, LineFor;
    if head == "" {
      ReadNothing(codec);
      assert head + more == more;
    } else {
      Worm.FirstLine(head, more);
      var n := Find(head, '\n');
      ReadFirst(codec, head, n);
      ReadFirst(codec, head + more, n);
      ReadLinesSplits(codec, head[n + 1..], more);
    }
  }

  lemma ReadOneLine(codec: Worm.Codec, line: string)
    requires '\n' !in line
    ensures ReadLines(codec, line + "\n") == [LineFor(codec, line)]
    ensures line != "" ==> ReadLines(codec, line) == [LineFor(codec, line)]
  {
    hide ReadLines, LineFor, Find;
    ReadNothing(codec);
    var text := line + "\n";
    FindFirst(text, '\n', |line|);
    assert text[..|line|] == line && text[|line| + 1..] == "";
    ReadFirst(codec, text, |line|);
    if line != "" {
      assert Find(line, '\n') == |line| && line[..|line|] == line;
      ReadFirst(codec, line, |line|);
    }
  }

  // ---- The scan of the sink counts what the log reads

  /** One line in front of parsed ones. */
  function InFront(first: Line, rest: Option<seq<Envelope>>): Option<seq<Envelope>> {
    if first == Malformed || rest.None? then None
    else if first == Blank then rest
    else Some([first.envelope] + rest.value)
  }

  lemma {:induction false} ParseInFront(first: Line, rest: seq<Line>)
    ensures ParseLines([first] + rest) == InFront(first, ParseLines(rest))
  {
    if rest == [] {
      assert [first] + rest == [first] && [first][..0] == [];
      if first.Line? {
        assert [] + [first.envelope] == [first.envelope] + [];
      }
    } else {
      var n := |rest| - 1;
      var all := [first] + rest;
      assert all[..|all| - 1] == [first] + rest[..n] && all[|all| - 1] == rest[n];
      ParseInFront(first, rest[..n]);
      if first.Line? && rest[n].Line? && ParseLines(rest[..n]).Some? {
        var es := ParseLines(rest[..n]).value;
        assert ([first.envelope] + es) + [rest[n].envelope] == [first.envelope] + (es + [rest[n].envelope]);
      }
    }
  }

  /** What a scan makes of envelopes: their number and the last hash. */
  ghost function SummaryOf(found: Option<seq<Envelope>>, so: Worm.Summary): Option<Worm.Summary> {
    match found
    case None => None
    case Some(es) => Some(Worm.Summary(so.count + |es|, if es == [] then so.lastHash else es[|es| - 1].recordHash))
  }

  lemma ScanInFront(codec: Worm.Codec, text: string, found: Option<seq<Envelope>>, so: Worm.Summary)
    ensures SummaryOf(InFront(LineFor(codec, text), found), so) ==
      match Worm.ScanLine(codec, text, so)
      case None => None
      case Some(next) => SummaryOf(found, next)
  {
  }

  /** A scan fails exactly when a reload would, and otherwise gives the number of envelopes and the hash of the last. */
  lemma {:induction false} ScanExactly(codec: Worm.Codec, text: string, so: Worm.Summary)
    ensures Worm.Scan(codec, text, so) == SummaryOf(ParseLines(ReadLines(codec, text)), so)
    decreases |text|
  {
    hide Find, SummaryOf, InFront, LineFor, Worm.ScanLine, ParseLines, ReadLines, Worm.Scan;
    if text == "" {
      NothingScanned(codec, so);
    } else {
      var n := Find(text, '\n');
      var more := if n < |text| then text[n + 1..] else "";
      ReadFirst(codec, text, n);
      ParseInFront(LineFor(codec, text[..n]), ReadLines(codec, more));
      Worm.ScanFirst(codec, text, n, so);
      ScanInFront(codec, text[..n], ParseLines(ReadLines(codec, more)), so);
      var next := Worm.ScanLine(codec, text[..n], so);
      if next.Some? {
        ScanExactly(codec, more, next.value);
      }
    }
  }

  lemma NothingScanned(codec: Worm.Codec, so: Worm.Summary)
    ensures Worm.Scan(codec, "", so) == SummaryOf(ParseLines(ReadLines(codec, "")), so)
  {
  }

  // ---- Runs

  /** The log's memory, the disk, and what the open sink remembers. */
  datatype SinkLog = SinkLog(state: ChainState, disk: Worm.Disk, sink: Worm.Manifest)

  datatype Write = Write(record: AuditRecord, nonce: nat, fault: Worm.Fault)

  const EMPTY_MANIFEST := Worm.Manifest(0, 0, GENESIS)

  function Start(crypto: Crypto, key: Option<SigningKey>): SinkLog {
    SinkLog(Keyed(crypto, Fresh(), key), Worm.Disk(Some(""), Some(EMPTY_MANIFEST)), EMPTY_MANIFEST)
  }

  /** That is what opening the sink over no file gives. */
  lemma StartIsOpened(crypto: Crypto, key: Option<SigningKey>, codec: Worm.Codec)
    ensures Worm.Open(codec, Worm.Disk(None, None)) == Ok(Worm.Opened(Start(crypto, key).disk, Start(crypto, key).sink))
  {
  }

  /** The memory takes the envelope only when the sink reports the append as done. */
  function AfterWrite(crypto: Crypto, codec: Worm.Codec, w: SinkLog, e: Write): SinkLog {
    match Prepared(crypto, w.state, e.record, e.nonce)
    case None => w
    case Some(envelope) =>
      match Worm.Append(codec, w.disk, w.sink, envelope, e.fault)
      case Err(_) => w
      case Ok(a) => SinkLog(if a.ok then Advanced(w.state, envelope) else w.state, a.disk, a.state)
  }

  function RunWrites(crypto: Crypto, codec: Worm.Codec, w: SinkLog, es: seq<Write>): SinkLog
    decreases |es|
  {
    if es == [] then w else RunWrites(crypto, codec, AfterWrite(crypto, codec, w, es[0]), es[1..])
  }

  /** Once an append broke off, the length no longer fits and the sink refuses everything; otherwise the fault
      counts. */
  function AfterFault(crypto: Crypto, codec: Worm.Codec, w: SinkLog, h: Health, e: Write): Health {
    match Prepared(crypto, w.state, e.record, e.nonce)
    case None => h
    case Some(envelope) =>
      if h == Broken || !h.terminated then h else AfterOutcome(h, Worm.FaultOutcome(codec, envelope, e.fault))
  }

  function HealthAfter(crypto: Crypto, codec: Worm.Codec, w: SinkLog, h: Health, es: seq<Write>): Health
    decreases |es|
  {
    if es == [] then h
    else HealthAfter(crypto, codec, AfterWrite(crypto, codec, w, es[0]), AfterFault(crypto, codec, w, h, es[0]),
                     es[1..])
  }

  // ---- The sink as the log's file

  /** The text is these lines, and has the length the sink remembers exactly while no line is left open. */
  ghost predicate Mirrors(codec: Worm.Codec, w: SinkLog, log: Log) {
    && w.state == log.state && w.disk.file.Some?
    && ReadLines(codec, w.disk.file.value) == log.file.lines
    && w.sink.byteLength <= |w.disk.file.value|
    && (log.file.terminated <==> |w.disk.file.value| == w.sink.byteLength)
    && (log.file.terminated ==> Worm.Terminated(w.disk.file.value))
  }

  /** What an append adds to a file without an open line, as text and as lines. */
  lemma AppendedMirrors(codec: Worm.Codec, text: string, e: Envelope, n: nat)
    requires Worm.Faithful(codec) && BrokenWhenCut(codec) && Worm.Terminated(text) && n <= |Worm.LineOf(codec, e)|
    ensures ReadLines(codec, text + Worm.LineOf(codec, e)[..n]) == ReadLines(codec, text) +
      (if n == 0 then [] else if n < |codec.encode(e)| then [Malformed] else [Line(e)])
  {
    hide ReadLines;
    var encoded, piece := codec.encode(e), Worm.LineOf(codec, e)[..n];
    assert LineFor(codec, encoded) == Line(e);
    ReadLinesSplits(codec, text, piece);
    if n == 0 {
      assert piece == "";
      ReadNothing(codec);
    } else if n <= |encoded| {
      assert piece == encoded[..n] && encoded[..|encoded|] == encoded;
      assert '\n' !in piece;
      ReadOneLine(codec, piece);
    } else {
      assert piece == encoded + "\n";
      ReadOneLine(codec, encoded);
    }
  }

  lemma WriteMirrors(crypto: Crypto, codec: Worm.Codec, w: SinkLog, log: Log, e: Write)
    requires Worm.Faithful(codec) && BrokenWhenCut(codec) && Mirrors(codec, w, log)
    requires Prepared(crypto, w.state, e.record, e.nonce).Some?
    ensures var envelope := Prepared(crypto, w.state, e.record, e.nonce).value;
      var outcome := Worm.OutcomeOf(codec, w.disk, w.sink, envelope, e.fault);
      && Mirrors(codec, AfterWrite(crypto, codec, w, e), AfterRecord(crypto, log, e.record, e.nonce, outcome))
      && outcome == (if log.file.terminated then Worm.FaultOutcome(codec, envelope, e.fault) else Refused)
  {
    hide ReadLines, Prepared, Worm.Faithful, BrokenWhenCut;
    if log.file.terminated {
      var envelope, text := Prepared(crypto, w.state, e.record, e.nonce).value, w.disk.file.value;
      var line := Worm.LineOf(codec, envelope);
      assert line[..|line|] == line;
      AppendedMirrors(codec, text, envelope, |line|);
      Worm.LineEndsFile(codec, text, envelope);
      if e.fault.Torn? && e.fault.bytes < |line| {
        AppendedMirrors(codec, text, envelope, e.fault.bytes);
        assert e.fault.bytes == 0 ==> text + line[..0] == text;
      }
    }
  }

  lemma StepTracks(crypto: Crypto, key: Option<SigningKey>, codec: Worm.Codec, w: SinkLog, log: Log, h: Health,
                   e: Write)
    returns (next: Log)
    requires CollisionFree(crypto) && SoundSignatures(crypto) && Worm.Faithful(codec) && BrokenWhenCut(codec)
    requires Mirrors(codec, w, log) && Tracks(crypto, key, log, h)
    ensures Mirrors(codec, AfterWrite(crypto, codec, w, e), next)
    ensures Tracks(crypto, key, next, AfterFault(crypto, codec, w, h, e))
  {
    hide CollisionFree, SoundSignatures, Worm.Faithful, BrokenWhenCut, Mirrors, Prepared, AfterRecord, FileVerifies,
         Coherent, AheadBy, Worm.FaultOutcome, Worm.OutcomeOf;
    next := log;
    var prepared := Prepared(crypto, w.state, e.record, e.nonce);
    if prepared.Some? {
      var outcome := Worm.OutcomeOf(codec, w.disk, w.sink, prepared.value, e.fault);
      WriteMirrors(crypto, codec, w, log, e);
      MirroredState(codec, w, log);
      RecordTracks(crypto, key, log, h, e.record, e.nonce, outcome);
      next := AfterRecord(crypto, log, e.record, e.nonce, outcome);
    } else {
      NothingWritten(crypto, codec, w, e);
    }
  }

  lemma MirroredState(codec: Worm.Codec, w: SinkLog, log: Log)
    requires Mirrors(codec, w, log)
    ensures w.state == log.state
  {
  }

  lemma NothingWritten(crypto: Crypto, codec: Worm.Codec, w: SinkLog, e: Write)
    requires Prepared(crypto, w.state, e.record, e.nonce).None?
    ensures AfterWrite(crypto, codec, w, e) == w
  {
  }

  lemma {:induction false} RunTracks(crypto: Crypto, key: Option<SigningKey>, codec: Worm.Codec, w: SinkLog, log: Log,
                                     h: Health, es: seq<Write>)
    returns (last: Log)
    requires CollisionFree(crypto) && SoundSignatures(crypto) && Worm.Faithful(codec) && BrokenWhenCut(codec)
    requires Mirrors(codec, w, log) && Tracks(crypto, key, log, h)
    ensures Mirrors(codec, RunWrites(crypto, codec, w, es), last)
    ensures Tracks(crypto, key, last, HealthAfter(crypto, codec, w, h, es))
    decreases |es|
  {
    hide CollisionFree, SoundSignatures, Worm.Faithful, BrokenWhenCut, Mirrors, Tracks, AfterWrite, AfterFault;
    if es == [] {
      last := log;
    } else {
      var next := StepTracks(crypto, key, codec, w, log, h, es[0]);
      last := RunTracks(crypto, key, codec, AfterWrite(crypto, codec, w, es[0]), next,
                        AfterFault(crypto, codec, w, h, es[0]), es[1..]);
    }
  }

  /** After any run of records with faults over a newly opened sink, the file reloads and verifies exactly when no line
      was written after one whose manifest could not be, and no append broke off within an envelope. */
  lemma SinkFileVerifiesExactly(crypto: Crypto, key: Option<SigningKey>, codec: Worm.Codec, es: seq<Write>)
    requires CollisionFree(crypto) && SoundSignatures(crypto) && Worm.Faithful(codec) && BrokenWhenCut(codec)
    ensures var w := RunWrites(crypto, codec, Start(crypto, key), es);
      && w.disk.file.Some?
      && (FileVerifies(crypto, key, ReadLines(codec, w.disk.file.value)) <==>
            HealthAfter(crypto, codec, Start(crypto, key), Sound(false, true), es) != Broken)
  {
    hide CollisionFree, SoundSignatures, Worm.Faithful, BrokenWhenCut, FileVerifies, RunWrites, HealthAfter, Coherent;
    ReadNothing(codec);
    var log := EmptyLog(crypto, key);
    EmptyLogIsConsistent(crypto, key);
    var last := RunTracks(crypto, key, codec, Start(crypto, key), log, Sound(false, true), es);
    SoundVerifies(crypto, key, last, HealthAfter(crypto, codec, Start(crypto, key), Sound(false, true), es));
  }

  /** Once the file has another length than the sink remembers, no write changes anything any more. */
  lemma {:induction false} StuckSinkStays(crypto: Crypto, codec: Worm.Codec, w: SinkLog, es: seq<Write>)
    requires w.disk.file.Some? && |w.disk.file.value| != w.sink.byteLength
    ensures RunWrites(crypto, codec, w, es) == w
    decreases |es|
  {
    if es == [] {
    } else {
      StuckSinkStays(crypto, codec, w, es[1..]);
    }
  }

  /** Reloading the log takes the plain sink, which writes no manifest: one more record through it, and the next open of
      the write-once sink reports tampering. */
  lemma ReloadedLogIsReported(codec: Worm.Codec, disk: Worm.Disk, state: Worm.Manifest, e: Envelope)
    requires disk.file.Some? && disk.manifest == Some(state) && |disk.file.value| == state.byteLength
    ensures var written := disk.(file := Some(disk.file.value + Worm.LineOf(codec, e)));
      Worm.Open(codec, disk).Ok? && Worm.Open(codec, written) == Err(Tampered)
  {
    Worm.LineEndsFile(codec, disk.file.value, e);
  }
}
