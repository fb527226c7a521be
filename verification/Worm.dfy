/** The write-once audit sink: an append-only file and a manifest of its length, envelope count and last hash. */
module Worm {
  import opened Wrappers
  import opened Text
  import opened AuditChain
  import opened AuditLog

  /** How envelopes are written to and read from one line of bytes, and which lines count as blank; a character stands
      for a byte. A line that is not UTF-8 is neither blank nor an envelope. */
  datatype Codec = Codec(encode: Envelope -> string, decode: string -> Option<Envelope>, blank: string -> bool)

  /** An encoded envelope is one line that is not blank and reads back. */
  ghost predicate Faithful(codec: Codec) {
    && codec.blank("")
    && forall e :: '\n' !in codec.encode(e) && !codec.blank(codec.encode(e)) && codec.decode(codec.encode(e)) == Some(e)
  }

  datatype Manifest = Manifest(byteLength: nat, count: nat, lastHash: string)

  datatype Disk = Disk(file: Option<string>, manifest: Option<Manifest>)

  // ---- Scanning

  datatype Summary = Summary(count: nat, lastHash: string)

  /** What one line adds to the summary; a line that is neither blank nor an envelope ends the scan. */
  function ScanLine(codec: Codec, line: string, so: Summary): Option<Summary> {
    if codec.blank(line) then Some(so)
    else
      match codec.decode(line)
      case None => None
      case Some(e) => Some(Summary(so.count + 1, e.recordHash))
  }

  function Scan(codec: Codec, text: string, so: Summary): Option<Summary>
    decreases |text|
  {
    if text == "" then Some(so) else
      var n := Find(text, '\n');
      match ScanLine(codec, text[..n], so)
      case None => None
      case Some(s) => Scan(codec, if n < |text| then text[n + 1..] else "", s)
  }

  const NOTHING := Summary(0, GENESIS)

  /** The manifest describes exactly this text. */
  ghost predicate Describes(codec: Codec, m: Manifest, text: string) {
    m.byteLength == |text| && Scan(codec, text, NOTHING) == Some(Summary(m.count, m.lastHash))
  }

  predicate Terminated(text: string) {
    text == "" || text[|text| - 1] == '\n'
  }

  function LineOf(codec: Codec, e: Envelope): string {
    codec.encode(e) + "\n"
  }

  /** What follows the last line end. */
  function Tail(text: string): string {
    if text == "" || text[|text| - 1] == '\n' then "" else Tail(text[..|text| - 1]) + [text[|text| - 1]]
  }

  lemma {:induction false} TailIsLast(text: string)
    ensures |Tail(text)| <= |text| && Tail(text) == text[|text| - |Tail(text)|..] && '\n' !in Tail(text)
    ensures Terminated(text[..|text| - |Tail(text)|])
  {
    var n := |text| - 1;
    if text == "" || text[n] == '\n' {
      assert Tail(text) == "" && text[|text|..] == "" && text[..|text|] == text;
    } else {
      var before := text[..n];
      TailIsLast(before);
      var tail := Tail(before);
      assert Tail(text) == tail + [text[n]];
      assert before[..n - |tail|] == text[..n - |tail|];
      assert text[n - |tail|..] == before[n - |tail|..] + [text[n]];
    }
  }

  /** Where the first line of a terminated text ends, alone and with more text behind it. */
  lemma FirstLine(head: string, more: string)
    requires Terminated(head) && head != ""
    ensures var n := Find(head, '\n');
      && n < |head| && Find(head + more, '\n') == n && (head + more)[..n] == head[..n]
      && (head + more)[n + 1..] == head[n + 1..] + more && Terminated(head[n + 1..])
  {
    hide Find;
    assert head[|head| - 1] in head;
    FindAtMost(head, '\n', |head| - 1);
    var n := Find(head, '\n');
    assert (head + more)[..n] == head[..n];
    FindFirst(head + more, '\n', n);
  }

  lemma ScanFirst(codec: Codec, text: string, n: nat, so: Summary)
    requires text != "" && n == Find(text, '\n')
    ensures Scan(codec, text, so) ==
      match ScanLine(codec, text[..n], so)
      case None => None
      case Some(s) => Scan(codec, if n < |text| then text[n + 1..] else "", s)
  {
    hide Find, ScanLine;
  }

  /** Scanning past complete lines and then one more piece of text. */
  lemma {:induction false} ScanSplits(codec: Codec, head: string, more: string, so: Summary)
    requires Terminated(head)
    ensures Scan(codec, head + more, so) ==
      match Scan(codec, head, so)
      case None => None
      case Some(s) => Scan(codec, more, s)
    decreases |head|
  {
    hide Scan, ScanLine, Find, Terminated;
    if head == "" {
      assert head + more == more;
      ScanNothing(codec, so);
    } else {
      FirstLine(head, more);
      var n := Find(head, '\n');
      ScanFirst(codec, head, n, so);
      ScanFirst(codec, head + more, n, so);
      var s := ScanLine(codec, head[..n], so);
      if s.Some? {
        ScanSplits(codec, head[n + 1..], more, s.value);
      }
    }
  }

  lemma ScanNothing(codec: Codec, so: Summary)
    ensures Scan(codec, "", so) == Some(so)
  {
  }

  /** A piece of text with one line end, at its end. */
  lemma ScanOneLine(codec: Codec, line: string, so: Summary)
    requires '\n' !in line
    ensures Scan(codec, line + "\n", so) == ScanLine(codec, line, so)
  {
    hide Scan, ScanLine, Find;
    var text := line + "\n";
    assert text[..|line|] == line && text[|line| + 1..] == "";
    FindFirst(text, '\n', |line|);
    ScanFirst(codec, text, |line|, so);
    if ScanLine(codec, line, so).Some? {
      ScanNothing(codec, ScanLine(codec, line, so).value);
    }
  }

  /** A piece of text without line end. */
  lemma ScanUnterminated(codec: Codec, line: string, so: Summary)
    requires '\n' !in line && codec.blank("")
    ensures Scan(codec, line, so) == ScanLine(codec, line, so)
  {
    hide Scan, Find;
    if line == "" {
      ScanNothing(codec, so);
    } else {
      assert Find(line, '\n') == |line|;
      assert line[..|line|] == line;
      ScanFirst(codec, line, |line|, so);
      if ScanLine(codec, line, so).Some? {
        ScanNothing(codec, ScanLine(codec, line, so).value);
      }
    }
  }

  /** What an unterminated end of the file makes of the line written behind it. */
  predicate KeepsEnvelope(codec: Codec, tail: string, e: Envelope) {
    var line := tail + codec.encode(e);
    !codec.blank(line) && codec.decode(line).Some? && codec.decode(line).value.recordHash == e.recordHash
  }

  /** Appending a line keeps the manifest in step with a scan exactly when what follows the last line end is blank and
      does not spoil the new line; so always when the file was properly terminated, never after an unterminated
      envelope. */
  lemma AppendDescribedExactly(codec: Codec, m: Manifest, text: string, e: Envelope)
    requires Faithful(codec) && Describes(codec, m, text)
    ensures Describes(codec, ManifestAfter(codec, m, text, e), text + LineOf(codec, e)) <==>
      codec.blank(Tail(text)) && KeepsEnvelope(codec, Tail(text), e)
  {
    hide *;
    ScanThroughTail(codec, text, e);
    var so := Scan(codec, CompleteLines(text), NOTHING);
    DescribedScans(codec, m, text);
    LastLineCounts(codec, Tail(text), so.value, Summary(m.count, m.lastHash), e);
    AfterIsManifest(codec, m, text, e);
    DescribedScans(codec, ManifestAfter(codec, m, text, e), text + LineOf(codec, e));
  }

  function ManifestAfter(codec: Codec, m: Manifest, text: string, e: Envelope): Manifest {
    Manifest(|text + LineOf(codec, e)|, m.count + 1, e.recordHash)
  }

  lemma AfterIsManifest(codec: Codec, m: Manifest, text: string, e: Envelope)
    ensures ManifestAfter(codec, m, text, e) == Manifest(|text + LineOf(codec, e)|, m.count + 1, e.recordHash)
  {
  }

  lemma DescribedScans(codec: Codec, m: Manifest, text: string)
    ensures Describes(codec, m, text) <==>
              m.byteLength == |text| && Scan(codec, text, NOTHING) == Some(Summary(m.count, m.lastHash))
  {
    hide Scan;
  }

  function CompleteLines(text: string): string {
    TailIsLast(text);
    text[..|text| - |Tail(text)|]
  }

  lemma ScanThroughTail(codec: Codec, text: string, e: Envelope)
    requires Faithful(codec)
    ensures var before := Scan(codec, CompleteLines(text), NOTHING);
      if before.None? then Scan(codec, text, NOTHING) == None
      else && Scan(codec, text, NOTHING) == ScanLine(codec, Tail(text), before.value)
           && Scan(codec, text + LineOf(codec, e), NOTHING)
                == ScanLine(codec, Tail(text) + codec.encode(e), before.value)
  {
    hide Scan, ScanLine, Tail, Terminated, Faithful;
    TailIsLast(text);
    var head, tail := CompleteLines(text), Tail(text);
    Regroup(text, head, tail, codec.encode(e));
    ScanSplits(codec, head, tail, NOTHING);
    ScanSplits(codec, head, (tail + codec.encode(e)) + "\n", NOTHING);
    var before := Scan(codec, head, NOTHING);
    if before.Some? {
      LastLineScans(codec, tail, e, before.value);
    }
  }

  lemma Regroup(text: string, head: string, tail: string, encoded: string)
    requires head <= text && tail == text[|head|..]
    ensures text == head + tail
    ensures text + (encoded + "\n") == head + ((tail + encoded) + "\n")
  {
    assert text == head + tail;
  }

  lemma LastLineCounts(codec: Codec, tail: string, so: Summary, before: Summary, e: Envelope)
    requires ScanLine(codec, tail, so) == Some(before)
    ensures ScanLine(codec, tail + codec.encode(e), so) == Some(Summary(before.count + 1, e.recordHash)) <==>
      codec.blank(tail) && KeepsEnvelope(codec, tail, e)
  {
  }

  lemma LastLineScans(codec: Codec, tail: string, e: Envelope, so: Summary)
    requires Faithful(codec) && '\n' !in tail
    ensures Scan(codec, tail, so) == ScanLine(codec, tail, so)
    ensures Scan(codec, (tail + codec.encode(e)) + "\n", so) == ScanLine(codec, tail + codec.encode(e), so)
  {
    hide Scan, ScanLine;
    ScanUnterminated(codec, tail, so);
    ScanOneLine(codec, tail + codec.encode(e), so);
  }

  /** Whatever is appended next, the manifest stays in step. */
  ghost predicate Extendable(codec: Codec, text: string) {
    codec.blank(Tail(text)) && forall e :: KeepsEnvelope(codec, Tail(text), e)
  }

  lemma TerminatedIsExtendable(codec: Codec, text: string)
    requires Faithful(codec) && Terminated(text)
    ensures Extendable(codec, text)
  {
    forall e
      ensures KeepsEnvelope(codec, "", e)
    {
      assert "" + codec.encode(e) == codec.encode(e);
    }
  }

  lemma {:induction false} TailAfterLineEnd(head: string, line: string)
    requires Terminated(head) && '\n' !in line
    ensures Tail(head + line) == line
    decreases |line|
  {
    if line == "" {
      assert head + line == head;
    } else {
      var n := |line| - 1;
      assert (head + line)[..|head + line| - 1] == head + line[..n];
      TailAfterLineEnd(head, line[..n]);
    }
  }

  lemma AppendedIsExtendable(codec: Codec, m: Manifest, text: string, e: Envelope)
    requires Faithful(codec) && Describes(codec, m, text) && Extendable(codec, text)
    ensures Describes(codec, ManifestAfter(codec, m, text, e), text + LineOf(codec, e))
    ensures Extendable(codec, text + LineOf(codec, e))
  {
    hide Describes, ManifestAfter, KeepsEnvelope;
    AppendDescribedExactly(codec, m, text, e);
    LineEndsFile(codec, text, e);
    TerminatedIsExtendable(codec, text + LineOf(codec, e));
  }

  lemma LineEndsFile(codec: Codec, text: string, e: Envelope)
    ensures Terminated(text + LineOf(codec, e)) && |text + LineOf(codec, e)| > |text|
  {
  }

  // ---- Operations on the disk

  function LengthOk(file: Option<string>, expected: nat): bool {
    match file
    case None => expected == 0
    case Some(text) => |text| == expected
  }

  datatype Opened = Opened(disk: Disk, state: Manifest)

  /** The state an open starts from, and the disk after the file exists. */
  function OpenState(codec: Codec, disk: Disk): Result<Opened, AuditError> {
    match disk.manifest
    case Some(m) => Ok(Opened(disk, m))
    case None =>
      match disk.file
      case None => Ok(Opened(disk.(file := Some("")), Manifest(0, 0, GENESIS)))
      case Some(text) =>
        match Scan(codec, text, NOTHING)
        case None => Err(Io)
        case Some(s) => Ok(Opened(disk, Manifest(|text|, s.count, s.lastHash)))
  }

  function Open(codec: Codec, disk: Disk): Result<Opened, AuditError> {
    match OpenState(codec, disk)
    case Err(e) => Err(e)
    case Ok(o) =>
      if !LengthOk(o.disk.file, o.state.byteLength) then Err(Tampered)
      else Ok(Opened(o.disk.(manifest := Some(o.state)), o.state))
  }

  /** Over a manifest, whatever is on the disk: an open succeeds exactly when the file has the length the manifest says,
      a missing file counting as empty; it then takes the manifest as it is. Every failure is tampering. */
  lemma OpenOverManifestExactly(codec: Codec, disk: Disk, m: Manifest)
    requires disk.manifest == Some(m)
    ensures var r := Open(codec, disk);
      && (r.Ok? <==> if disk.file.Some? then |disk.file.value| == m.byteLength else m.byteLength == 0)
      && (r.Ok? ==> r.value == Opened(disk, m))
      && (r.Err? ==> r.error == Tampered)
  {
  }

  /** Where an append is interrupted: after some bytes of the line, after the whole line, or not at all. A crash loses
      the open sink, a mere failure does not. */
  datatype Fault = NoFault | Torn(bytes: nat, crash: bool) | NoManifest(crash: bool)

  datatype Appended = Appended(disk: Disk, state: Manifest, ok: bool)

  function Append(codec: Codec, disk: Disk, state: Manifest, e: Envelope, fault: Fault): Result<Appended, AuditError> {
    if !LengthOk(disk.file, state.byteLength) then Err(Tampered)
    else if disk.file.None? then Err(Io)
    else
      var text, line := disk.file.value, LineOf(codec, e);
      if fault.Torn? && fault.bytes < |line| then
        Ok(Appended(disk.(file := Some(text + line[..fault.bytes])), state, false))
      else
        var next := ManifestAfter(codec, state, text, e);
        var written := disk.(file := Some(text + line));
        if next.byteLength <= state.byteLength then Err(Tampered)
        else if fault == NoFault then Ok(Appended(written.(manifest := Some(next)), next, true))
        else Ok(Appended(written, next, false))
  }

  /** Whatever is on the disk: an append reports tampering exactly when the file has not the length the sink remembers,
      a missing file included; it fails otherwise only when an empty file is missing. */
  lemma AppendRefusedExactly(codec: Codec, disk: Disk, state: Manifest, e: Envelope, fault: Fault)
    ensures var r := Append(codec, disk, state, e, fault);
      && (r == Err(Tampered) <==> if disk.file.Some? then |disk.file.value| != state.byteLength
                                  else state.byteLength != 0)
      && (r == Err(Io) <==> disk.file.None? && state.byteLength == 0)
  {
    if disk.file.Some? {
      LineEndsFile(codec, disk.file.value, e);
    }
  }

  // ---- The invariant

  /** A manifest describes an extendable beginning of the file. */
  ghost predicate Covers(codec: Codec, m: Manifest, file: Option<string>) {
    && file.Some? && m.byteLength <= |file.value|
    && Describes(codec, m, file.value[..m.byteLength]) && Extendable(codec, file.value[..m.byteLength])
  }

  ghost predicate DiskOk(codec: Codec, disk: Disk) {
    match disk.manifest
    case Some(m) => Covers(codec, m, disk.file)
    case None => disk.file.Some? ==> Safe(codec, disk.file.value)
  }

  /** A file to start from: extendable, or refused by the scan. */
  ghost predicate Safe(codec: Codec, text: string) {
    Scan(codec, text, NOTHING).None? || Extendable(codec, text)
  }

  /** An open sink's state describes at least what the manifest on disk does. */
  ghost predicate SinkOk(codec: Codec, disk: Disk, state: Manifest) {
    disk.manifest.Some? && Covers(codec, state, disk.file) && disk.manifest.value.byteLength <= state.byteLength
  }

  lemma CoversExtended(codec: Codec, m: Manifest, text: string, more: string)
    requires Covers(codec, m, Some(text))
    ensures Covers(codec, m, Some(text + more))
  {
    hide Describes, Extendable;
    assert (text + more)[..m.byteLength] == text[..m.byteLength];
  }

  /** A reopen hands out a manifest that matches a scan of the file, or fails: over a manifest exactly when the file has
      another length, as tampering; without one exactly when the file cannot be scanned. */
  lemma OpenMatchesScan(codec: Codec, disk: Disk)
    requires Faithful(codec) && DiskOk(codec, disk)
    ensures var r := Open(codec, disk);
      && (r.Ok? ==>
            && r.value.disk.file.Some? && Describes(codec, r.value.state, r.value.disk.file.value)
            && DiskOk(codec, r.value.disk) && SinkOk(codec, r.value.disk, r.value.state)
            && (disk.file.Some? ==> r.value.disk.file == disk.file))
      && (disk.manifest.Some? ==> (r.Err? <==> |disk.file.value| != disk.manifest.value.byteLength))
      && (disk.manifest.Some? && r.Err? ==> r.error == Tampered)
      && (disk.manifest.None? ==> (r.Err? <==> disk.file.Some? && Scan(codec, disk.file.value, NOTHING).None?))
  {
    hide Terminated, Extendable, Faithful;
    EmptyIsExtendable(codec);
    var r := Open(codec, disk);
    if r.Ok? {
      var text := r.value.disk.file.value;
      assert text[..|text|] == text;
    }
  }

  lemma EmptyIsExtendable(codec: Codec)
    requires Faithful(codec)
    ensures Extendable(codec, "")
  {
    hide Extendable, Faithful;
    TerminatedIsExtendable(codec, "");
  }

  /** Whatever happens during an append, the disk and a surviving sink stay consistent; a completed append has strictly
      grown the file, and manifest, file and sink agree. */
  lemma AppendKeepsOk(codec: Codec, disk: Disk, state: Manifest, e: Envelope, fault: Fault)
    requires Faithful(codec) && DiskOk(codec, disk) && SinkOk(codec, disk, state)
    ensures var r := Append(codec, disk, state, e, fault);
      && (r.Err? ==> |disk.file.value| != state.byteLength && r.error == Tampered)
      && (r.Ok? ==>
            r.value.disk.file.Some? && DiskOk(codec, r.value.disk) && SinkOk(codec, r.value.disk, r.value.state))
      && (r.Ok? && r.value.ok ==>
            && |r.value.disk.file.value| > |disk.file.value|
            && r.value.disk.file.value == disk.file.value + LineOf(codec, e)
            && r.value.disk.manifest == Some(r.value.state)
            && Describes(codec, r.value.state, r.value.disk.file.value))
      && (r.Ok? && fault == NoFault ==> r.value.ok)
  {
    hide Describes, Extendable, Faithful, LineOf;
    var text, line := disk.file.value, LineOf(codec, e);
    if |text| == state.byteLength {
      assert text[..|text|] == text;
      AppendedIsExtendable(codec, state, text, e);
      LineEndsFile(codec, text, e);
      assert (text + line)[..|text + line|] == text + line;
      CoversExtended(codec, disk.manifest.value, text, line);
      if fault.Torn? && fault.bytes < |line| {
        CoversExtended(codec, disk.manifest.value, text, line[..fault.bytes]);
        CoversExtended(codec, state, text, line[..fault.bytes]);
      }
    }
  }

  // ---- Runs

  datatype System = System(disk: Disk, sink: Option<Manifest>)

  datatype Event = OpenSink(crashAfterCreate: bool) | AppendOne(envelope: Envelope, fault: Fault) | Crash

  function Step(codec: Codec, s: System, e: Event): System {
    match e
    case OpenSink(crashed) =>
      if crashed then
        (match OpenState(codec, s.disk)
         case Err(_) => s.(sink := None)
         case Ok(o) => System(o.disk, None))
      else
        (match Open(codec, s.disk)
         case Err(_) => s.(sink := None)
         case Ok(o) => System(o.disk, Some(o.state)))
    case AppendOne(envelope, fault) =>
      if s.sink.None? then s else
        (match Append(codec, s.disk, s.sink.value, envelope, fault)
         case Err(_) => s
         case Ok(a) =>
           var lost := (fault.Torn? && fault.crash) || (fault.NoManifest? && fault.crash);
           System(a.disk, if lost then None else Some(a.state)))
    case Crash => s.(sink := None)
  }

  function Run(codec: Codec, s: System, es: seq<Event>): System
    decreases |es|
  {
    if es == [] then s else Run(codec, Step(codec, s, es[0]), es[1..])
  }

  predicate Crashes(e: Event) {
    match e
    case OpenSink(crashed) => crashed
    case AppendOne(_, fault) => fault != NoFault && fault.crash
    case Crash => true
  }

  /** A crash loses the open sink, except during an append that is refused before it starts; nothing else loses it. A
      crash during an open leaves at most a newly created file behind. */
  lemma CrashLosesSink(codec: Codec, s: System, e: Event)
    ensures Crashes(e) && (e.AppendOne? && s.sink.Some? ==>
                           Append(codec, s.disk, s.sink.value, e.envelope, e.fault).Ok?)
      ==> Step(codec, s, e).sink == None
    ensures e.AppendOne? && !Crashes(e) ==> Step(codec, s, e).sink.Some? == s.sink.Some?
    ensures e.OpenSink? && Crashes(e) ==>
              && Step(codec, s, e).disk.manifest == s.disk.manifest
              && (s.disk.file.Some? ==> Step(codec, s, e).disk.file == s.disk.file)
              && (s.disk == Disk(None, None) ==> Step(codec, s, e).disk == Disk(Some(""), None))
  {
    hide Scan;
  }

  ghost predicate SystemOk(codec: Codec, s: System) {
    DiskOk(codec, s.disk) && (s.sink.Some? ==> SinkOk(codec, s.disk, s.sink.value))
  }

  /** Without a manifest, the file is still the one the run began with, or newly created. */
  predicate Untouched(s: System, initial: Option<string>) {
    s.disk.manifest.None? ==> s.disk.file == initial || (initial.None? && s.disk.file == Some(""))
  }

  lemma StepKeepsOk(codec: Codec, initial: Option<string>, s: System, e: Event)
    requires Faithful(codec) && SystemOk(codec, s) && Untouched(s, initial)
    ensures SystemOk(codec, Step(codec, s, e)) && Untouched(Step(codec, s, e), initial)
  {
    hide Describes, Extendable, Faithful, Append, Covers, Scan;
    match e {
      case OpenSink(crashed) =>
        OpenMatchesScan(codec, s.disk);
        EmptyIsExtendable(codec);
      case AppendOne(envelope, fault) =>
        if s.sink.Some? {
          AppendKeepsOk(codec, s.disk, s.sink.value, envelope, fault);
        }
      case Crash =>
    }
  }

  lemma {:induction false} RunKeepsOk(codec: Codec, initial: Option<string>, s: System, es: seq<Event>)
    requires Faithful(codec) && SystemOk(codec, s) && Untouched(s, initial)
    ensures SystemOk(codec, Run(codec, s, es)) && Untouched(Run(codec, s, es), initial)
    decreases |es|
  {
    hide SystemOk, Untouched, Faithful, Step;
    if es == [] {
    } else {
      StepKeepsOk(codec, initial, s, es[0]);
      RunKeepsOk(codec, initial, Step(codec, s, es[0]), es[1..]);
    }
  }

  function DiskAfter(codec: Codec, initial: Option<string>, es: seq<Event>): Disk {
    Run(codec, System(Disk(initial, None), None), es).disk
  }

  /** After any run of opens, appends, failures and crashes, starting from no file or from a safe one without a
      manifest: a reopen yields a manifest that matches a scan of the file; or reports tampering, because the file has
      grown past its manifest; or there is no manifest yet and the file the run began with cannot be scanned. */
  lemma ReopenAfterAnyRun(codec: Codec, initial: Option<string>, es: seq<Event>)
    requires Faithful(codec)
    requires initial.Some? ==> Safe(codec, initial.value)
    ensures var disk := DiskAfter(codec, initial, es);
      var r := Open(codec, disk);
      if r.Ok? then r.value.disk.file.Some? && Describes(codec, r.value.state, r.value.disk.file.value)
      else if disk.manifest.Some?
      then r.error == Tampered && disk.file.Some? && |disk.file.value| > disk.manifest.value.byteLength
      else r.error == Io && disk.file == initial && initial.Some? && Scan(codec, initial.value, NOTHING).None?
  {
    hide Describes, Faithful, Run, Extendable, Scan;
    RunKeepsOk(codec, initial, System(Disk(initial, None), None), es);
    var disk := DiskAfter(codec, initial, es);
    OpenMatchesScan(codec, disk);
    NothingScans(codec);
  }

  lemma NothingScans(codec: Codec)
    ensures Scan(codec, "", NOTHING).Some?
  {
  }

  /** Every manifest a reopen yields after this run matches the file. */
  ghost predicate ReopenMatches(codec: Codec, initial: Option<string>, es: seq<Event>) {
    var r := Open(codec, DiskAfter(codec, initial, es));
    r.Ok? ==> r.value.disk.file.Some? && Describes(codec, r.value.state, r.value.disk.file.value)
  }

  /** The files it is safe to start from are exactly these: over any other, one open and one append already end in a
      manifest that does not match the file and that a reopen accepts. */
  lemma ReopenMatchesExactly(codec: Codec, initial: Option<string>)
    requires Faithful(codec)
    ensures (forall es :: ReopenMatches(codec, initial, es)) <==> (initial.Some? ==> Safe(codec, initial.value))
  {
    hide Faithful, DiskAfter, Open, Describes, Safe;
    if initial.Some? && !Safe(codec, initial.value) {
      var e := SpoiledEnvelope(codec, initial.value);
      OneAppendDisagrees(codec, initial.value, e);
    } else {
      forall es
        ensures ReopenMatches(codec, initial, es)
      {
        ReopenAfterAnyRun(codec, initial, es);
      }
    }
  }

  /** An envelope that does not survive behind this text. */
  ghost function SpoiledEnvelope(codec: Codec, text: string): (e: Envelope)
    requires !Safe(codec, text)
    ensures Scan(codec, text, NOTHING).Some? && !(codec.blank(Tail(text)) && KeepsEnvelope(codec, Tail(text), e))
  {
    var e :| !(codec.blank(Tail(text)) && KeepsEnvelope(codec, Tail(text), e)); e
  }

  lemma OneAppendDisagrees(codec: Codec, text: string, e: Envelope)
    requires Faithful(codec) && Scan(codec, text, NOTHING).Some?
    requires !(codec.blank(Tail(text)) && KeepsEnvelope(codec, Tail(text), e))
    ensures !ReopenMatches(codec, Some(text), [OpenSink(false), AppendOne(e, NoFault)])
  {
    hide Faithful, Describes, Scan, Tail, KeepsEnvelope, LineOf;
    var so := Scan(codec, text, NOTHING).value;
    var m := Manifest(|text|, so.count, so.lastHash);
    DescribedScans(codec, m, text);
    AppendDescribedExactly(codec, m, text, e);
    LineEndsFile(codec, text, e);
    var m' := ManifestAfter(codec, m, text, e);
    var es := [OpenSink(false), AppendOne(e, NoFault)];
    assert es[1..] == [AppendOne(e, NoFault)] && es[1..][1..] == [];
    var started := System(Disk(Some(text), Some(m)), Some(m));
    assert Step(codec, System(Disk(Some(text), None), None), es[0]) == started;
    assert Step(codec, started, es[1]).disk == Disk(Some(text + LineOf(codec, e)), Some(m'));
    assert Run(codec, started, es[1..]) == Step(codec, started, es[1]);
    assert DiskAfter(codec, Some(text), es) == Disk(Some(text + LineOf(codec, e)), Some(m'));
  }

  /** One envelope without its line end is such a file. */
  lemma UnterminatedFileDisagrees(codec: Codec, first: Envelope, second: Envelope)
    requires Faithful(codec)
    ensures !ReopenMatches(codec, Some(codec.encode(first)), [OpenSink(false), AppendOne(second, NoFault)])
  {
    hide Scan, ReopenMatches, KeepsEnvelope;
    var text := codec.encode(first);
    ScanUnterminated(codec, text, NOTHING);
    TailAfterLineEnd("", text);
    assert "" + text == text;
    OneAppendDisagrees(codec, text, second);
  }

  /** Files of line ends: the shortest edits in place. */
  function LineEnds(n: nat): string {
    seq(n, _ => '\n')
  }

  lemma {:induction false} LineEndsScan(codec: Codec, n: nat, so: Summary)
    requires codec.blank("")
    ensures Scan(codec, LineEnds(n), so) == Some(so)
  {
    hide Scan, Find;
    var text := LineEnds(n);
    if n == 0 {
      assert text == "";
      ScanNothing(codec, so);
    } else {
      FindFirst(text, '\n', 0);
      assert text[..0] == "" && text[1..] == LineEnds(n - 1);
      ScanFirst(codec, text, 0, so);
      LineEndsScan(codec, n - 1, so);
    }
  }

  /** The check at the next open looks at the length only: it reports an edit exactly when the length changes. */
  lemma EditReportedExactly(codec: Codec, m: Manifest, text: string, edited: string)
    requires Describes(codec, m, text)
    ensures Open(codec, Disk(Some(edited), Some(m))) == Err(Tampered) <==> |edited| != |text|
    ensures Open(codec, Disk(Some(edited), Some(m))).Ok? <==> |edited| == |text|
  {
    hide Scan;
  }

  /** So every envelope can be wiped out in place. */
  lemma WipedFilePasses(codec: Codec, m: Manifest, text: string)
    requires Faithful(codec) && Describes(codec, m, text) && m.count > 0
    ensures Open(codec, Disk(Some(LineEnds(|text|)), Some(m))).Ok? && !Describes(codec, m, LineEnds(|text|))
  {
    hide Scan;
    EditReportedExactly(codec, m, text, LineEnds(|text|));
    LineEndsScan(codec, |text|, NOTHING);
  }

  // ---- The sink under an audit log

  /** What the log above makes of an append: a line whose manifest could not be written is there but reported as
      failed. */
  function OutcomeOf(codec: Codec, disk: Disk, state: Manifest, e: Envelope, fault: Fault): Outcome {
    if Append(codec, disk, state, e, fault).Err? then Refused else FaultOutcome(codec, e, fault)
  }

  function FaultOutcome(codec: Codec, e: Envelope, fault: Fault): Outcome {
    if fault == NoFault then Whole
    else if fault.NoManifest? || fault.bytes >= |LineOf(codec, e)| then Unreported
    else if fault.bytes == 0 then Refused
    else Outcome.Torn(fault.bytes == |codec.encode(e)|)
  }

  /** The text each outcome leaves behind. */
  lemma OutcomeOnDisk(codec: Codec, disk: Disk, state: Manifest, e: Envelope, fault: Fault)
    requires Append(codec, disk, state, e, fault).Ok?
    ensures var a := Append(codec, disk, state, e, fault).value;
      && disk.file.Some? && a.disk.file.Some? && disk.file.value <= a.disk.file.value
      && (a.ok <==> OutcomeOf(codec, disk, state, e, fault) == Whole)
      && var added := a.disk.file.value[|disk.file.value|..];
         match OutcomeOf(codec, disk, state, e, fault)
         case Refused => added == ""
         case Torn(complete) => added != "" && added <= codec.encode(e) && (complete <==> added == codec.encode(e))
         case _ => added == codec.encode(e) + "\n"
  {
    var line := LineOf(codec, e);
    assert line[..|codec.encode(e)|] == codec.encode(e);
    if fault.Torn? && fault.bytes < |line| {
      assert line[..fault.bytes] == codec.encode(e)[..fault.bytes];
    }
  }

  // ---- The sink object

  class WormDisk {
    var file: Option<string>
    var manifest: Option<Manifest>

    function State(): Disk
      reads this
    {
      Disk(file, manifest)
    }

    constructor (initial: Option<string>)
      ensures State() == Disk(initial, None)
    {
      file := initial;
      manifest := None;
    }
  }

  class WormAuditSink {
    const codec: Codec
    const disk: WormDisk
    var state: Manifest

    constructor (codec: Codec, disk: WormDisk, state: Manifest)
      ensures this.codec == codec && this.disk == disk && this.state == state
    {
      this.codec := codec;
      this.disk := disk;
      this.state := state;
    }

    static method OpenSink(codec: Codec, disk: WormDisk) returns (r: Result<WormAuditSink, AuditError>)
      modifies disk
      ensures match Open(codec, old(disk.State()))
              case Ok(o) => r.Ok? && fresh(r.value) && r.value.disk == disk && r.value.codec == codec
                            && r.value.state == o.state && disk.State() == o.disk
              case Err(e) => r == Err(e) && disk.file == old(disk.file) && disk.manifest == old(disk.manifest)
    {
      hide Scan;
      var state: Manifest;
      if disk.manifest.Some? {
        state := disk.manifest.value;
      } else if disk.file.Some? {
        var text := disk.file.value;
        var scanned := ScanEnvelopes(codec, text);
        if scanned.None? {
          return Err(Io);
        }
        state := Manifest(|text|, scanned.value.count, scanned.value.lastHash);
      } else {
        disk.file := Some("");
        state := Manifest(0, 0, GENESIS);
      }
      if !LengthOk(disk.file, state.byteLength) {
        return Err(Tampered);
      }
      disk.manifest := Some(state);
      var sink := new WormAuditSink(codec, disk, state);
      return Ok(sink);
    }

    /** Whether the file has the remembered length; then what the sink remembers of it still holds, if nobody else
        wrote. */
    method VerifyImmutable() returns (ok: bool)
      ensures disk.file.None? ==> (ok <==> state.byteLength == 0)
      ensures disk.file.Some? ==> (ok <==> |disk.file.value| == state.byteLength)
      ensures SinkOk(codec, disk.State(), state) ==>
                if ok then Describes(codec, state, disk.file.value) else |disk.file.value| > state.byteLength
    {
      hide Describes, Extendable;
      if disk.file.None? {
        return state.byteLength == 0;
      }
      var actual := |disk.file.value|;
      assert disk.file.value[..actual] == disk.file.value;
      return actual == state.byteLength;
    }

    method AppendEnvelope(e: Envelope, fault: Fault) returns (r: Result<bool, AuditError>)
      modifies this`state, disk
      ensures match Append(codec, old(disk.State()), old(state), e, fault)
              case Ok(a) => r == Ok(a.ok) && disk.State() == a.disk && state == a.state
              case Err(error) => r == Err(error) && disk.State() == old(disk.State()) && state == old(state)
    {
      if !LengthOk(disk.file, state.byteLength) {
        return Err(Tampered);
      }
      if disk.file.None? {
        return Err(Io);
      }
      var line := LineOf(codec, e);
      if fault.Torn? && fault.bytes < |line| {
        disk.file := Some(disk.file.value + line[..fault.bytes]);
        return Ok(false);
      }
      disk.file := Some(disk.file.value + line);
      var newLength := |disk.file.value|;
      state := Manifest(newLength, state.count + 1, e.recordHash);
      if fault != NoFault {
        return Ok(false);
      }
      disk.manifest := Some(state);
      return Ok(true);
    }
  }

  /** The line loop with its running count and hash. */
  method ScanEnvelopes(codec: Codec, text: string) returns (r: Option<Summary>)
    ensures r == Scan(codec, text, NOTHING)
  {
    hide Find;
    var so := NOTHING;
    var rest := text;
    while rest != ""
      invariant Scan(codec, text, NOTHING) == Scan(codec, rest, so)
      decreases |rest|
    {
      var n := Find(rest, '\n');
      var line := rest[..n];
      rest := if n < |rest| then rest[n + 1..] else "";
      if !codec.blank(line) {
        var e := codec.decode(line);
        if e.None? {
          return None;
        }
        so := Summary(so.count + 1, e.value.recordHash);
      }
    }
    return Some(so);
  }
}
