/** The audit log over a file of envelope lines: recording, reloading and verifying. */
module AuditLog {
  import opened Wrappers
  import opened Sequences
  import opened AuditChain

  /** One line of the file: white space, an envelope, or text that is not an envelope. */
  datatype Line = Blank | Line(envelope: Envelope) | Malformed

  datatype AuditError = Io | Tampered

  /** The in-memory chain state. */
  datatype ChainState = ChainState(
    previous: string,
    envelopes: seq<Envelope>,
    signing: Option<SigningKey>,
    verifying: Option<VerifyingKey>)

  function Fresh(): ChainState {
    ChainState(GENESIS, [], None, None)
  }

  function WithKey(crypto: Crypto, s: ChainState, key: SigningKey): ChainState {
    var public := crypto.publicOf(key);
    s.(signing := Some(key), verifying := if public.Some? then public else s.verifying)
  }

  function Prepared(crypto: Crypto, s: ChainState, record: AuditRecord, nonce: nat): Option<Envelope> {
    var sealed := Seal(crypto, record, s.previous);
    if s.signing.None? then Some(sealed) else Signed(crypto, sealed, s.signing.value, nonce)
  }

  /** What a record becomes: linked to the last hash, with its own hash, and with a signing key signed under that key's
      identifier, unless signing fails. */
  lemma PreparedExactly(crypto: Crypto, s: ChainState, record: AuditRecord, nonce: nat, e: Envelope)
    ensures Prepared(crypto, s, record, nonce) == Some(e) <==>
      && e.record == record && e.previousHash == s.previous
      && e.recordHash == crypto.hash(s.previous + "|" + crypto.encode(record))
      && match s.signing
         case None => e.signature == None
         case Some(key) =>
           var text := crypto.sign(key, e.recordHash, nonce);
           text.Some? && e.signature == Some(Signature("RSA-PSS-SHA256", key.id, text.value))
  {
  }

  /** The envelopes of a file, or None when some line is malformed. */
  function ParseLines(lines: seq<Line>): Option<seq<Envelope>> {
    if lines == [] then Some([]) else
      match ParseLines(lines[..|lines| - 1])
      case None => None
      case Some(es) =>
        match lines[|lines| - 1]
        case Blank => Some(es)
        case Line(e) => Some(es + [e])
        case Malformed => None
  }

  /** The envelopes found in a file are those of its lines, in order; one malformed line spoils them all, blank ones do
      not count. */
  lemma {:induction false} ParsedExactly(lines: seq<Line>)
    ensures ParseLines(lines).None? <==> Malformed in lines
    ensures ParseLines(lines).Some? ==> LinesOf(ParseLines(lines).value) == Retain(lines, (l: Line) => l != Blank)
  {
    if lines == [] {
    } else {
      var before, last := lines[..|lines| - 1], lines[|lines| - 1];
      ParsedExactly(before);
      assert lines == before + [last];
      RetainConcat(before, [last], (l: Line) => l != Blank);
      if ParseLines(lines).Some? && last.Line? {
        assert LinesOf(ParseLines(before).value + [last.envelope]) == LinesOf(ParseLines(before).value) + [last];
      }
    }
  }

  /** A reload has the file's envelopes in memory, links on to the last of them, and knows no keys. */
  lemma ReloadedExactly(lines: seq<Line>)
    ensures Malformed in lines ==> Reloaded(lines) == Err(Io)
    ensures Malformed !in lines ==>
              && Reloaded(lines).Ok?
              && var s := Reloaded(lines).value;
                 && LinesOf(s.envelopes) == Retain(lines, (l: Line) => l != Blank)
                 && s.previous == (if s.envelopes == [] then "GENESIS" else s.envelopes[|s.envelopes| - 1].recordHash)
                 && s.signing == None && s.verifying == None
  {
    ParsedExactly(lines);
  }

  function Reloaded(lines: seq<Line>): Result<ChainState, AuditError> {
    match ParseLines(lines)
    case None => Err(Io)
    case Some(es) => Ok(ChainState(LastHash(es), es, None, None))
  }

  /** What `verify_chain` accepts: a linked chain, every envelope signed when a verifying key is known. */
  ghost predicate Verified(crypto: Crypto, s: ChainState) {
    && Chained(crypto, s.envelopes)
    && (s.verifying.Some? ==> AllSigned(crypto, s.envelopes, s.verifying.value))
  }

  ghost predicate AllSigned(crypto: Crypto, es: seq<Envelope>, key: VerifyingKey) {
    forall i :: 0 <= i < |es| ==> VerifySignature(crypto, es[i], key).Ok?
  }

  /** The envelope carries a signature made with this key's identifier that the key accepts for its hash. */
  predicate SignedBy(crypto: Crypto, e: Envelope, key: VerifyingKey) {
    match e.signature
    case None => false
    case Some(s) => s.keyId == key.id && crypto.verify(key, e.recordHash, s.signature)
  }

  /** In plain terms: the envelope carries the hash of the one before it and the hash of that with its own record, and,
      when a verifying key is known, a signature of its hash which that key accepts. */
  predicate Fits(crypto: Crypto, es: seq<Envelope>, i: nat, verifying: Option<VerifyingKey>)
    requires i < |es|
  {
    var e, previous := es[i], if i == 0 then "GENESIS" else es[i - 1].recordHash;
    && e.previousHash == previous
    && e.recordHash == crypto.hash(previous + "|" + crypto.encode(e.record))
    && (verifying.Some? ==> SignedBy(crypto, e, verifying.value))
  }

  lemma FitsExactly(crypto: Crypto, es: seq<Envelope>, i: nat, verifying: Option<VerifyingKey>)
    requires i < |es|
    ensures Fits(crypto, es, i, verifying) <==>
      && VerifyLink(crypto, es[i], LastHash(es[..i])).Ok?
      && (verifying.Some? ==> VerifySignature(crypto, es[i], verifying.value).Ok?)
  {
    assert LastHash(es[..i]) == if i == 0 then "GENESIS" else es[i - 1].recordHash;
  }

  lemma VerifiedExactly(crypto: Crypto, s: ChainState)
    ensures Verified(crypto, s) <==> forall i :: 0 <= i < |s.envelopes| ==> Fits(crypto, s.envelopes, i, s.verifying)
  {
    hide VerifyLink, VerifySignature, Fits, LastHash;
    forall i | 0 <= i < |s.envelopes|
      ensures Fits(crypto, s.envelopes, i, s.verifying) <==>
        && VerifyLink(crypto, s.envelopes[i], LastHash(s.envelopes[..i])).Ok?
        && (s.verifying.Some? ==> VerifySignature(crypto, s.envelopes[i], s.verifying.value).Ok?)
    {
      FitsExactly(crypto, s.envelopes, i, s.verifying);
    }
  }

  /** A signature the key rejects, or one under another key's identifier, makes the whole log fail. */
  lemma ForgeryIsRejected(crypto: Crypto, s: ChainState, i: nat, forged: Signature)
    requires i < |s.envelopes| && s.verifying.Some?
    requires forged.keyId != s.verifying.value.id ||
             !crypto.verify(s.verifying.value, s.envelopes[i].recordHash, forged.signature)
    ensures !Verified(crypto, s.(envelopes := s.envelopes[i := s.envelopes[i].(signature := Some(forged))]))
  {
    var t := s.(envelopes := s.envelopes[i := s.envelopes[i].(signature := Some(forged))]);
    VerifiedExactly(crypto, t);
    assert !Fits(crypto, t.envelopes, i, t.verifying);
  }

  lemma SignedExtends(crypto: Crypto, es: seq<Envelope>, e: Envelope, key: VerifyingKey)
    ensures AllSigned(crypto, es + [e], key) <==> AllSigned(crypto, es, key) && VerifySignature(crypto, e, key).Ok?
  {
    hide VerifySignature;
    var longer := es + [e];
    assert longer[|es|] == e && forall i :: 0 <= i < |es| ==> longer[i] == es[i];
  }

  /** A log whose beginning does not verify does not verify. */
  lemma BadBeginning(crypto: Crypto, s: ChainState, n: nat)
    requires n < |s.envelopes| && Verified(crypto, s)
    ensures VerifyLink(crypto, s.envelopes[n], LastHash(s.envelopes[..n])).Ok?
    ensures s.verifying.Some? ==> VerifySignature(crypto, s.envelopes[n], s.verifying.value).Ok?
  {
    hide VerifyLink, VerifySignature;
  }

  /** The lines of a file that was only ever written by this log. */
  function LinesOf(es: seq<Envelope>): seq<Line> {
    seq(|es|, i requires 0 <= i < |es| => Line(es[i]))
  }

  lemma {:induction false} LinesParseBack(es: seq<Envelope>)
    ensures ParseLines(LinesOf(es)) == Some(es)
  {
    if es == [] {
    } else {
      var before := es[..|es| - 1];
      LinesParseBack(before);
      assert LinesOf(es)[..|es| - 1] == LinesOf(before);
      assert es == before + [es[|es| - 1]];
    }
  }

  // ---- Appending to the file

  /** The lines of a file, and whether the last one has its line end. */
  datatype File = File(lines: seq<Line>, terminated: bool)

  /** How an append ends: reported as done; refused without a trace; written but reported as failed, as when the
      manifest beside the file cannot be replaced; or broken off, after the whole text of the envelope or within it. */
  datatype Outcome = Whole | Refused | Unreported | Torn(complete: bool)

  /** Text glued to an unterminated line: an envelope with anything before it is none, only white space does no harm. */
  function Glued(last: Line, piece: Line): Line {
    if last == Blank then piece else Malformed
  }

  function Appended(file: File, e: Envelope, outcome: Outcome): File {
    if outcome == Refused then file else
      var piece := if outcome == Torn(false) then Malformed else Line(e);
      var n := |file.lines|;
      File(if file.terminated || n == 0 then file.lines + [piece]
           else file.lines[..n - 1] + [Glued(file.lines[n - 1], piece)],
           !outcome.Torn?)
  }

  /** A new line is added behind a line end; behind an open line it takes that line's place, and is an envelope only if
      nothing but white space was open. */
  lemma AppendedExactly(file: File, e: Envelope)
    ensures Appended(file, e, Refused) == file
    ensures var n := |file.lines|;
      Appended(file, e, Whole) == File(
        if file.terminated || n == 0 then file.lines + [Line(e)]
        else if file.lines[n - 1].Blank? then file.lines[..n - 1] + [Line(e)]
        else file.lines[..n - 1] + [Malformed], true)
  {
  }

  // ---- Runs

  datatype Log = Log(state: ChainState, file: File)

  /** A record and the outcome of its append, or a restart that reloads the file and sets the run's key. */
  datatype Event = Record(record: AuditRecord, nonce: nat, outcome: Outcome) | Restart

  /** The memory takes the envelope only when the append is reported as done. */
  function AfterRecord(crypto: Crypto, log: Log, record: AuditRecord, nonce: nat, outcome: Outcome): Log {
    match Prepared(crypto, log.state, record, nonce)
    case None => log
    case Some(e) => Log(if outcome == Whole then Advanced(log.state, e) else log.state, Appended(log.file, e, outcome))
  }

  function Advanced(s: ChainState, e: Envelope): ChainState {
    s.(previous := e.recordHash, envelopes := s.envelopes + [e])
  }

  function Keyed(crypto: Crypto, s: ChainState, key: Option<SigningKey>): ChainState {
    if key.None? then s else WithKey(crypto, s, key.value)
  }

  function Step(crypto: Crypto, key: Option<SigningKey>, log: Log, e: Event): Log {
    match e
    case Record(record, nonce, outcome) => AfterRecord(crypto, log, record, nonce, outcome)
    case Restart =>
      match Reloaded(log.file.lines)
      case Err(_) => log
      case Ok(s) => log.(state := Keyed(crypto, s, key))
  }

  function Run(crypto: Crypto, key: Option<SigningKey>, log: Log, es: seq<Event>): Log
    decreases |es|
  {
    if es == [] then log else Run(crypto, key, Step(crypto, key, log, es[0]), es[1..])
  }

  /** An empty file, opened with the run's key. */
  function EmptyLog(crypto: Crypto, key: Option<SigningKey>): Log {
    Log(Keyed(crypto, Fresh(), key), File([], true))
  }

  // ---- What memory and file keep

  /** The chain in memory verifies, and the next record will link to it. */
  ghost predicate Coherent(crypto: Crypto, key: Option<SigningKey>, s: ChainState) {
    && s.previous == LastHash(s.envelopes)
    && s.signing == key
    && s.verifying == (if key.Some? then crypto.publicOf(key.value) else None)
    && Verified(crypto, s)
  }

  /** File and memory agree. */
  ghost predicate Consistent(crypto: Crypto, key: Option<SigningKey>, log: Log) {
    Coherent(crypto, key, log.state) && log.file == File(LinesOf(log.state.envelopes), true)
  }

  lemma PreparedExtends(crypto: Crypto, key: Option<SigningKey>, s: ChainState, record: AuditRecord, nonce: nat)
    requires SoundSignatures(crypto) && Coherent(crypto, key, s)
    ensures var prepared := Prepared(crypto, s, record, nonce);
      prepared.Some? ==>
        && prepared.value.previousHash == s.previous
        && Coherent(crypto, key, Advanced(s, prepared.value))
        && LinesOf(s.envelopes + [prepared.value]) == LinesOf(s.envelopes) + [Line(prepared.value)]
  {
    hide HashRecord, Chained, AllSigned;
    var prepared := Prepared(crypto, s, record, nonce);
    if prepared.Some? {
      var e := prepared.value;
      ChainExtends(crypto, s.envelopes, e);
      if s.verifying.Some? {
        assert VerifySignature(crypto, e, s.verifying.value).Ok?;
        SignedExtends(crypto, s.envelopes, e, s.verifying.value);
      }
    }
  }

  /** One record, taken or refused by the sink, keeps the agreement. */
  lemma RecordKeepsConsistent(crypto: Crypto, key: Option<SigningKey>, log: Log, record: AuditRecord, nonce: nat,
                              outcome: Outcome)
    requires SoundSignatures(crypto) && Consistent(crypto, key, log) && (outcome == Whole || outcome == Refused)
    ensures Consistent(crypto, key, AfterRecord(crypto, log, record, nonce, outcome))
  {
    hide Coherent, Prepared;
    PreparedExtends(crypto, key, log.state, record, nonce);
  }

  lemma RestartKeepsConsistent(crypto: Crypto, key: Option<SigningKey>, log: Log)
    requires Consistent(crypto, key, log)
    ensures Step(crypto, key, log, Restart) == log
  {
    LinesParseBack(log.state.envelopes);
  }

  lemma {:induction false} RunKeepsConsistent(crypto: Crypto, key: Option<SigningKey>, log: Log, es: seq<Event>)
    requires SoundSignatures(crypto) && Consistent(crypto, key, log)
    requires forall i :: 0 <= i < |es| && es[i].Record? ==> es[i].outcome == Whole || es[i].outcome == Refused
    ensures Consistent(crypto, key, Run(crypto, key, log, es))
    decreases |es|
  {
    hide Consistent, AfterRecord, Reloaded;
    if es == [] {
    } else {
      match es[0] {
        case Record(record, nonce, outcome) => RecordKeepsConsistent(crypto, key, log, record, nonce, outcome);
        case Restart => RestartKeepsConsistent(crypto, key, log);
      }
      RunKeepsConsistent(crypto, key, Step(crypto, key, log, es[0]), es[1..]);
    }
  }

  lemma EmptyLogIsConsistent(crypto: Crypto, key: Option<SigningKey>)
    ensures Consistent(crypto, key, EmptyLog(crypto, key))
  {
  }

  /** From an empty file, after any mix of records, refused appends and restarts, with the same key throughout or none
      throughout: the file is exactly the in-memory envelopes, the chain verifies, and a restart changes nothing. */
  lemma RunStaysVerified(crypto: Crypto, key: Option<SigningKey>, es: seq<Event>)
    requires SoundSignatures(crypto)
    requires forall i :: 0 <= i < |es| && es[i].Record? ==> es[i].outcome == Whole || es[i].outcome == Refused
    ensures var log := Run(crypto, key, EmptyLog(crypto, key), es);
      && log.file == File(LinesOf(log.state.envelopes), true)
      && Verified(crypto, log.state)
      && Step(crypto, key, log, Restart) == log
  {
    hide Verified, Step, Run, EmptyLog;
    EmptyLogIsConsistent(crypto, key);
    RunKeepsConsistent(crypto, key, EmptyLog(crypto, key), es);
    RestartKeepsConsistent(crypto, key, Run(crypto, key, EmptyLog(crypto, key), es));
  }

  // ---- Runs in which appends also go wrong halfway

  /** What the outcomes so far leave of the file: verifiable, with or without an envelope the memory does not know and
      with or without its last line end; or broken. */
  datatype Health = Sound(ahead: bool, terminated: bool) | Broken

  /** A write goes wrong for good when the file is a record ahead, when its last line is open, or when it breaks off
      within an envelope. */
  function AfterOutcome(h: Health, outcome: Outcome): Health {
    if h == Broken || outcome == Refused then h
    else if h.ahead || !h.terminated || outcome == Torn(false) then Broken
    else Sound(outcome != Whole, !outcome.Torn?)
  }

  /** A restart takes over what the file holds. */
  function AfterEvent(crypto: Crypto, log: Log, h: Health, e: Event): Health {
    match e
    case Record(record, nonce, outcome) =>
      if Prepared(crypto, log.state, record, nonce).None? then h else AfterOutcome(h, outcome)
    case Restart => if h == Broken then h else h.(ahead := false)
  }

  function RunHealth(crypto: Crypto, key: Option<SigningKey>, log: Log, h: Health, es: seq<Event>): Health
    decreases |es|
  {
    if es == [] then h
    else RunHealth(crypto, key, Step(crypto, key, log, es[0]), AfterEvent(crypto, log, h, es[0]), es[1..])
  }

  /** The file reloads, and verifies under the run's key. */
  ghost predicate FileVerifies(crypto: Crypto, key: Option<SigningKey>, lines: seq<Line>) {
    match Reloaded(lines)
    case Err(_) => false
    case Ok(s) => Verified(crypto, Keyed(crypto, s, key))
  }

  ghost predicate AheadBy(crypto: Crypto, log: Log, e: Envelope) {
    log.file.lines == LinesOf(log.state.envelopes + [e]) && Verified(crypto, Advanced(log.state, e))
  }

  ghost predicate Tracks(crypto: Crypto, key: Option<SigningKey>, log: Log, h: Health) {
    match h
    case Broken => !FileVerifies(crypto, key, log.file.lines)
    case Sound(ahead, terminated) =>
      && Coherent(crypto, key, log.state)
      && log.file.terminated == terminated && (!terminated ==> log.file.lines != [])
      && (if ahead then exists e :: AheadBy(crypto, log, e) else log.file.lines == LinesOf(log.state.envelopes))
  }

  lemma KeyedVerifies(crypto: Crypto, key: Option<SigningKey>, s: ChainState, es: seq<Envelope>)
    requires s.verifying == (if key.Some? then crypto.publicOf(key.value) else None)
    ensures Reloaded(LinesOf(es)) == Ok(ChainState(LastHash(es), es, None, None))
    ensures FileVerifies(crypto, key, LinesOf(es)) <==> Verified(crypto, s.(envelopes := es))
  {
    LinesParseBack(es);
  }

  lemma SoundVerifies(crypto: Crypto, key: Option<SigningKey>, log: Log, h: Health)
    requires Tracks(crypto, key, log, h)
    ensures FileVerifies(crypto, key, log.file.lines) <==> h != Broken
  {
    hide FileVerifies, Chained, AllSigned;
    if h.Sound? {
      if h.ahead {
        var e :| AheadBy(crypto, log, e);
        KeyedVerifies(crypto, key, log.state, log.state.envelopes + [e]);
      } else {
        KeyedVerifies(crypto, key, log.state, log.state.envelopes);
      }
    }
  }

  /** Further lines cannot repair a file. */
  lemma BrokenStays(crypto: Crypto, key: Option<SigningKey>, lines: seq<Line>, more: Line)
    requires !FileVerifies(crypto, key, lines)
    ensures !FileVerifies(crypto, key, lines + [more])
  {
    hide VerifyLink, VerifySignature, Chained, AllSigned;
    assert (lines + [more])[..|lines|] == lines;
    var parsed := ParseLines(lines);
    if parsed.Some? && more.Line? {
      ChainExtends(crypto, parsed.value, more.envelope);
      var verifying := Keyed(crypto, ChainState(GENESIS, [], None, None), key).verifying;
      if verifying.Some? {
        SignedExtends(crypto, parsed.value, more.envelope, verifying.value);
      }
    }
  }

  lemma AppendedStaysBroken(crypto: Crypto, key: Option<SigningKey>, file: File, e: Envelope, outcome: Outcome)
    requires !FileVerifies(crypto, key, file.lines)
    ensures !FileVerifies(crypto, key, Appended(file, e, outcome).lines)
  {
    hide Verified;
    var n, piece := |file.lines|, if outcome == Torn(false) then Malformed else Line(e);
    BrokenStays(crypto, key, file.lines, piece);
    if n > 0 && !file.terminated {
      var before, last := file.lines[..n - 1], file.lines[n - 1];
      if last == Blank {
        BrokenStays(crypto, key, before, piece);
      } else {
        assert (before + [Malformed])[..n - 1] == before;
      }
    }
  }

  /** A record that follows one the memory does not know links to the wrong hash. */
  lemma SecondWriteBreaks(crypto: Crypto, key: Option<SigningKey>, s: ChainState, first: Envelope, second: Envelope)
    requires CollisionFree(crypto) && Coherent(crypto, key, s) && Verified(crypto, Advanced(s, first))
    requires second.previousHash == s.previous
    ensures !FileVerifies(crypto, key, LinesOf(s.envelopes + [first]) + [Line(second)])
  {
    hide CollisionFree, HashRecord, Chained, AllSigned;
    var es := s.envelopes + [first];
    assert LinesOf(es + [second]) == LinesOf(es) + [Line(second)];
    KeyedVerifies(crypto, key, s, es + [second]);
    ChainExtends(crypto, es, second);
    if second.previousHash == first.recordHash {
      LastHashBindsRecords(crypto, s.envelopes, es);
    }
  }

  lemma RecordTracks(crypto: Crypto, key: Option<SigningKey>, log: Log, h: Health, record: AuditRecord, nonce: nat,
                     outcome: Outcome)
    requires CollisionFree(crypto) && SoundSignatures(crypto) && Tracks(crypto, key, log, h)
    ensures Tracks(crypto, key, AfterRecord(crypto, log, record, nonce, outcome),
                   AfterEvent(crypto, log, h, Record(record, nonce, outcome)))
  {
    hide Coherent, Prepared, FileVerifies, CollisionFree, SoundSignatures, Verified;
    var prepared := Prepared(crypto, log.state, record, nonce);
    if prepared.Some? && outcome != Refused {
      var e := prepared.value;
      if h == Broken {
        AppendedStaysBroken(crypto, key, log.file, e, outcome);
      } else {
        PreparedExtends(crypto, key, log.state, record, nonce);
        WriteTracks(crypto, key, log, h, e, outcome);
      }
    }
  }

  lemma WriteTracks(crypto: Crypto, key: Option<SigningKey>, log: Log, h: Health, e: Envelope, outcome: Outcome)
    requires CollisionFree(crypto) && Tracks(crypto, key, log, h) && h.Sound? && outcome != Refused
    requires e.previousHash == log.state.previous && Coherent(crypto, key, Advanced(log.state, e))
    requires LinesOf(log.state.envelopes + [e]) == LinesOf(log.state.envelopes) + [Line(e)]
    ensures Tracks(crypto, key, Log(if outcome == Whole then Advanced(log.state, e)
                                    else log.state, Appended(log.file, e, outcome)),
                   AfterOutcome(h, outcome))
  {
    hide Coherent, FileVerifies, CollisionFree, Verified;
    var lines, n := log.file.lines, |log.file.lines|;
    if !h.terminated {
      NoBlankEnd(log, h, crypto, key);
      MalformedEnd(crypto, key, lines[..n - 1]);
    } else if outcome == Torn(false) {
      MalformedEnd(crypto, key, lines);
    } else if h.ahead {
      var first :| AheadBy(crypto, log, first);
      SecondWriteBreaks(crypto, key, log.state, first, e);
    } else {
      VerifiedWhenCoherent(crypto, key, Advanced(log.state, e));
      assert outcome != Whole ==> AheadBy(crypto, Log(log.state, Appended(log.file, e, outcome)), e);
    }
  }

  lemma VerifiedWhenCoherent(crypto: Crypto, key: Option<SigningKey>, s: ChainState)
    requires Coherent(crypto, key, s)
    ensures Verified(crypto, s)
  {
  }

  lemma MalformedEnd(crypto: Crypto, key: Option<SigningKey>, lines: seq<Line>)
    ensures !FileVerifies(crypto, key, lines + [Malformed])
  {
  }

  lemma NoBlankEnd(log: Log, h: Health, crypto: Crypto, key: Option<SigningKey>)
    requires Tracks(crypto, key, log, h) && h.Sound? && log.file.lines != []
    ensures log.file.lines[|log.file.lines| - 1] != Blank
  {
    hide Coherent, Verified;
  }

  lemma RestartTracks(crypto: Crypto, key: Option<SigningKey>, log: Log, h: Health)
    requires Tracks(crypto, key, log, h)
    ensures Tracks(crypto, key, Step(crypto, key, log, Restart), AfterEvent(crypto, log, h, Restart))
  {
    hide Chained, AllSigned, LinesOf, FileVerifies;
    if h.Sound? {
      if h.ahead {
        var e :| AheadBy(crypto, log, e);
        KeyedVerifies(crypto, key, log.state, log.state.envelopes + [e]);
      } else {
        KeyedVerifies(crypto, key, log.state, log.state.envelopes);
      }
    }
  }

  lemma {:induction false} RunTracks(crypto: Crypto, key: Option<SigningKey>, log: Log, h: Health, es: seq<Event>)
    requires CollisionFree(crypto) && SoundSignatures(crypto) && Tracks(crypto, key, log, h)
    ensures Tracks(crypto, key, Run(crypto, key, log, es), RunHealth(crypto, key, log, h, es))
    decreases |es|
  {
    hide CollisionFree, SoundSignatures, Tracks, AfterRecord, AfterEvent, Reloaded;
    if es == [] {
    } else {
      match es[0] {
        case Record(record, nonce, outcome) => RecordTracks(crypto, key, log, h, record, nonce, outcome);
        case Restart => RestartTracks(crypto, key, log, h);
      }
      RunTracks(crypto, key, Step(crypto, key, log, es[0]), AfterEvent(crypto, log, h, es[0]), es[1..]);
    }
  }

  /** From an empty file, after any mix of records, append outcomes and restarts: the file reloads and verifies exactly
      when no write followed an unreported one without a restart between them, none met a line left open, and none broke
      off within an envelope. */
  lemma FileVerifiesExactly(crypto: Crypto, key: Option<SigningKey>, es: seq<Event>)
    requires CollisionFree(crypto) && SoundSignatures(crypto)
    ensures FileVerifies(crypto, key, Run(crypto, key, EmptyLog(crypto, key), es).file.lines)
      <==> RunHealth(crypto, key, EmptyLog(crypto, key), Sound(false, true), es) != Broken
  {
    hide CollisionFree, SoundSignatures, FileVerifies, Coherent;
    var log := EmptyLog(crypto, key);
    EmptyLogIsConsistent(crypto, key);
    RunTracks(crypto, key, log, Sound(false, true), es);
    SoundVerifies(crypto, key, Run(crypto, key, log, es), RunHealth(crypto, key, log, Sound(false, true), es));
  }

  /** The smallest such run: an append that writes its line and then reports failure, and one more record. */
  lemma UnreportedWriteBreaks(crypto: Crypto, first: AuditRecord, second: AuditRecord)
    requires CollisionFree(crypto) && SoundSignatures(crypto)
    ensures !FileVerifies(crypto, None,
      Run(crypto, None, EmptyLog(crypto, None), [Record(first, 0, Unreported), Record(second, 0, Whole)]).file.lines)
  {
    hide CollisionFree, SoundSignatures, FileVerifies;
    var es := [Record(first, 0, Unreported), Record(second, 0, Whole)];
    FileVerifiesExactly(crypto, None, es);
    assert es[1..] == [Record(second, 0, Whole)] && es[1..][1..] == [];
    var log := EmptyLog(crypto, None);
    var next := Step(crypto, None, log, es[0]);
    assert AfterEvent(crypto, log, Sound(false, true), es[0]) == Sound(true, true);
    assert AfterEvent(crypto, next, Sound(true, true), es[1]) == Broken;
    assert RunHealth(crypto, None, next, Sound(true, true), es[1..]) == Broken;
  }

  /** Turning signing on over a log that already holds unsigned envelopes makes verification fail; without such
      envelopes it succeeds. */
  lemma SigningMidwayExactly(crypto: Crypto, log: Log, key: SigningKey)
    requires Consistent(crypto, None, log) && crypto.publicOf(key).Some?
    requires forall i :: 0 <= i < |log.state.envelopes| ==> log.state.envelopes[i].signature.None?
    ensures Verified(crypto, WithKey(crypto, log.state, key)) <==> log.state.envelopes == []
  {
    hide HashRecord;
    var es := log.state.envelopes;
    if es != [] {
      assert VerifySignature(crypto, es[0], crypto.publicOf(key).value).Err?;
    }
  }

  /** So one unsigned record is enough. */
  lemma SigningMidwayFails(crypto: Crypto, record: AuditRecord, nonce: nat, key: SigningKey)
    requires SoundSignatures(crypto) && crypto.publicOf(key).Some?
    ensures var log := Run(crypto, None, EmptyLog(crypto, None), [Record(record, nonce, Whole)]);
      !Verified(crypto, WithKey(crypto, log.state, key))
  {
    hide HashRecord, Verified;
    var log := EmptyLog(crypto, None);
    EmptyLogIsConsistent(crypto, None);
    RecordKeepsConsistent(crypto, None, log, record, nonce, Whole);
    var next := AfterRecord(crypto, log, record, nonce, Whole);
    assert Run(crypto, None, log, [Record(record, nonce, Whole)]) == next;
    assert next.state.envelopes == [Seal(crypto, record, GENESIS)];
    SigningMidwayExactly(crypto, next, key);
  }

  /** Opening an existing file without reloading it starts a second chain in it: after one more record, a reload
      verifies exactly when the file was empty. */
  lemma OpenWithoutReloadExactly(crypto: Crypto, log: Log, record: AuditRecord, nonce: nat)
    requires CollisionFree(crypto) && Consistent(crypto, None, log)
    ensures var reopened := AfterRecord(crypto, log.(state := Fresh()), record, nonce, Whole);
      && Reloaded(reopened.file.lines).Ok?
      && (Verified(crypto, Reloaded(reopened.file.lines).value) <==> log.state.envelopes == [])
  {
    hide HashRecord, Chained;
    var es, e := log.state.envelopes, Seal(crypto, record, GENESIS);
    assert LinesOf(es + [e]) == LinesOf(es) + [Line(e)];
    LinesParseBack(es + [e]);
    ChainExtends(crypto, es, e);
    LastHashOfChain(crypto, es);
  }

  // ---- The log object

  class AuditFile {
    var lines: seq<Line>
    var terminated: bool

    function Contents(): File
      reads this
    {
      File(lines, terminated)
    }

    constructor ()
      ensures Contents() == File([], true)
    {
      lines, terminated := [], true;
    }

    /** Adds the envelope's line as far as it gets; `ok` is what the caller is told. */
    method Append(e: Envelope, outcome: Outcome) returns (ok: bool)
      modifies this
      ensures Contents() == Appended(old(Contents()), e, outcome)
      ensures ok <==> outcome == Whole
    {
      if outcome == Refused {
        return false;
      }
      var piece := if outcome == Torn(false) then Malformed else Line(e);
      if terminated || lines == [] {
        lines := lines + [piece];
      } else {
        lines := lines[..|lines| - 1] + [Glued(lines[|lines| - 1], piece)];
      }
      terminated := !outcome.Torn?;
      ok := outcome == Whole;
    }
  }

  class AuditLog {
    const crypto: Crypto
    const sink: AuditFile
    var previous: string
    var envelopes: seq<Envelope>
    var signing: Option<SigningKey>
    var verifying: Option<VerifyingKey>

    function State(): ChainState
      reads this
    {
      ChainState(previous, envelopes, signing, verifying)
    }

    constructor Open(crypto: Crypto, sink: AuditFile)
      ensures this.crypto == crypto && this.sink == sink && State() == Fresh()
    {
      this.crypto := crypto;
      this.sink := sink;
      previous, envelopes, signing, verifying := GENESIS, [], None, None;
    }

    static method LoadFromFile(crypto: Crypto, sink: AuditFile) returns (r: Result<AuditLog, AuditError>)
      ensures match Reloaded(sink.lines)
              case Err(e) => r == Err(e)
              case Ok(s) =>
                && r.Ok? && fresh(r.value) && r.value.State() == s
                && r.value.sink == sink && r.value.crypto == crypto
    {
      var loaded: seq<Envelope> := [];
      var lines := sink.lines;
      for n := 0 to |lines|
        invariant ParseLines(lines[..n]) == Some(loaded)
      {
        assert lines[..n + 1][..n] == lines[..n];
        if lines[n].Malformed? {
          MalformedLine(lines, n);
          return Err(Io);
        }
        if lines[n].Line? {
          loaded := loaded + [lines[n].envelope];
        }
      }
      assert lines[..|lines|] == lines;
      var log := new AuditLog.Open(crypto, sink);
      log.envelopes := loaded;
      log.previous := LastHash(loaded);
      r := Ok(log);
    }

    method WithSigningKey(key: SigningKey)
      modifies this`signing, this`verifying
      ensures State() == WithKey(crypto, old(State()), key)
      ensures signing == Some(key)
      ensures verifying == if crypto.publicOf(key).Some? then crypto.publicOf(key) else old(verifying)
    {
      signing := Some(key);
      var public := crypto.publicOf(key);
      if public.Some? {
        verifying := public;
      }
    }

    /** An append that is not reported as done leaves the memory alone, whatever it did to the file. */
    method Record(record: AuditRecord, nonce: nat, outcome: Outcome) returns (r: Result<Unit, AuditError>)
      modifies this`previous, this`envelopes, sink
      ensures Log(State(), sink.Contents()) ==
              AfterRecord(crypto, Log(old(State()), old(sink.Contents())), record, nonce, outcome)
      ensures r.Ok? <==> outcome == Whole && Prepared(crypto, old(State()), record, nonce).Some?
    {
      var envelope := Seal(crypto, record, previous);
      if signing.Some? {
        var signed := Signed(crypto, envelope, signing.value, nonce);
        if signed.None? {
          return Err(Io);
        }
        envelope := signed.value;
      }
      var ok := sink.Append(envelope, outcome);
      if !ok {
        return Err(Io);
      }
      previous := envelope.recordHash;
      envelopes := envelopes + [envelope];
      return Ok(Unit);
    }

    /** Succeeds exactly when every envelope links to the one before it, carries its own hash and, with a verifying key,
        a signature that key accepts. */
    method VerifyChain() returns (r: Result<Unit, ChainError>)
      ensures r.Ok? <==> Verified(crypto, State())
      ensures r.Ok? <==> forall i :: 0 <= i < |envelopes| ==> Fits(crypto, envelopes, i, verifying)
    {
      VerifiedExactly(crypto, State());
      hide VerifyLink, VerifySignature, Verified, LastHash;
      var es := envelopes;
      var expected := GENESIS;
      ghost var s := State();
      NothingToVerify(crypto, s);
      for n := 0 to |es|
        invariant expected == LastHash(es[..n])
        invariant Verified(crypto, s.(envelopes := es[..n]))
      {
        VerifiedExtends(crypto, s, n);
        var link := VerifyLink(crypto, es[n], expected);
        if link.Err? {
          return link;
        }
        var signature := if verifying.Some? then VerifySignature(crypto, es[n], verifying.value) else Ok(Unit);
        if signature.Err? {
          return signature;
        }
        expected := es[n].recordHash;
      }
      assert es[..|es|] == es;
      return Ok(Unit);
    }
  }

  lemma NothingToVerify(crypto: Crypto, s: ChainState)
    ensures Verified(crypto, s.(envelopes := s.envelopes[..0])) && LastHash(s.envelopes[..0]) == GENESIS
  {
  }

  /** One more envelope verifies exactly when its link and, with a key, its signature do; otherwise the whole log
      fails. */
  lemma VerifiedExtends(crypto: Crypto, s: ChainState, n: nat)
    requires n < |s.envelopes| && Verified(crypto, s.(envelopes := s.envelopes[..n]))
    ensures var fits := VerifyLink(crypto, s.envelopes[n], LastHash(s.envelopes[..n])).Ok?
              && (s.verifying.Some? ==> VerifySignature(crypto, s.envelopes[n], s.verifying.value).Ok?);
      && (fits ==> Verified(crypto, s.(envelopes := s.envelopes[..n + 1])))
      && (!fits ==> !Verified(crypto, s))
    ensures LastHash(s.envelopes[..n + 1]) == s.envelopes[n].recordHash
  {
    hide VerifyLink, VerifySignature, Chained, AllSigned;
    var es, e := s.envelopes, s.envelopes[n];
    assert es[..n + 1] == es[..n] + [e];
    ChainExtends(crypto, es[..n], e);
    if s.verifying.Some? {
      SignedExtends(crypto, es[..n], e, s.verifying.value);
    }
    if Verified(crypto, s) {
      BadBeginning(crypto, s, n);
    }
  }

  lemma {:induction false} MalformedLine(lines: seq<Line>, n: nat)
    requires n < |lines| && lines[n].Malformed?
    ensures ParseLines(lines).None?
    decreases |lines|
  {
    if n == |lines| - 1 {
    } else {
      MalformedLine(lines[..|lines| - 1], n);
    }
  }
}
