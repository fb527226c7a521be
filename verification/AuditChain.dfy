/** Hash-chained, optionally signed audit envelopes. */
module AuditChain {
  import opened Wrappers
  import opened Labeling

  datatype AuditEventKind = CrossDomainEvaluate | CrossDomainTransfer | TransportAccess | BindingVerify | BindingReject

  datatype AuditRecord = AuditRecord(
    id: string,
    timestamp: Instant,
    kind: AuditEventKind,
    subject: string,
    sourceDomain: Option<string>,
    targetDomain: Option<string>,
    original: Label,
    effective: Option<Label>,
    rule: string,
    decision: string,
    reason: string,
    payloadDigest: Option<string>)

  datatype SigningKey = SigningKey(id: string, secret: int)
  datatype VerifyingKey = VerifyingKey(id: string, point: int)

  /** The foreign functions: record encoding, hashing, and signatures, which take a nonce because they are
      randomized. */
  datatype Crypto = Crypto(
    encode: AuditRecord -> string,
    hash: string -> string,
    publicOf: SigningKey -> Option<VerifyingKey>,
    sign: (SigningKey, string, nat) -> Option<string>,
    verify: (VerifyingKey, string, string) -> bool)

  const GENESIS := "GENESIS"
  const NMBS_ALGORITHM := "RSA-PSS-SHA256"

  /** The hash has no collisions, prints without '|' and never as the genesis mark; records are encoded injectively. */
  ghost predicate CollisionFree(crypto: Crypto) {
    && (forall x, y :: crypto.hash(x) == crypto.hash(y) ==> x == y)
    && (forall x :: '|' !in crypto.hash(x) && crypto.hash(x) != GENESIS)
    && (forall r, s :: crypto.encode(r) == crypto.encode(s) ==> r == s)
  }

  /** A signature made with a key verifies under that key's public half, which carries the same identifier. */
  ghost predicate SoundSignatures(crypto: Crypto) {
    forall k: SigningKey, text: string, nonce: nat ::
      crypto.publicOf(k).Some? && crypto.sign(k, text, nonce).Some? ==>
        crypto.publicOf(k).value.id == k.id &&
            crypto.verify(crypto.publicOf(k).value, text, crypto.sign(k, text, nonce).value)
  }

  datatype Signature = Signature(algorithm: string, keyId: string, signature: string)

  datatype Envelope = Envelope(record: AuditRecord, previousHash: string, recordHash: string,
      signature: Option<Signature>)

  datatype ChainError = PreviousHashMismatch | RecordHashMismatch | NotSigned | KeyIdMismatch | BadSignature

  function HashRecord(crypto: Crypto, record: AuditRecord, previous: string): string {
    crypto.hash(previous + "|" + crypto.encode(record))
  }

  function Seal(crypto: Crypto, record: AuditRecord, previous: string): Envelope {
    Envelope(record, previous, HashRecord(crypto, record, previous), None)
  }

  /** The envelope with its hash signed, unless signing fails. */
  function Signed(crypto: Crypto, e: Envelope, key: SigningKey, nonce: nat): Option<Envelope> {
    match crypto.sign(key, e.recordHash, nonce)
    case None => None
    case Some(text) => Some(e.(signature := Some(Signature(NMBS_ALGORITHM, key.id, text))))
  }

  function VerifyLink(crypto: Crypto, e: Envelope, previous: string): Result<Unit, ChainError> {
    if e.previousHash != previous then Err(PreviousHashMismatch)
    else if HashRecord(crypto, e.record, e.previousHash) != e.recordHash then Err(RecordHashMismatch)
    else Ok(Unit)
  }

  function VerifySignature(crypto: Crypto, e: Envelope, key: VerifyingKey): Result<Unit, ChainError> {
    if e.signature.None? then Err(NotSigned)
    else if e.signature.value.keyId != key.id then Err(KeyIdMismatch)
    else if !crypto.verify(key, e.recordHash, e.signature.value.signature) then Err(BadSignature)
    else Ok(Unit)
  }

  // ---- Chains

  function LastHash(es: seq<Envelope>): string {
    if es == [] then GENESIS else es[|es| - 1].recordHash
  }

  /** Each envelope carries the hash of the one before it and its own correct hash. */
  ghost predicate Chained(crypto: Crypto, es: seq<Envelope>) {
    forall i :: 0 <= i < |es| ==> VerifyLink(crypto, es[i], LastHash(es[..i])).Ok?
  }

  /** Two logs hold the same records, linked alike, in the same order; their signatures may differ. */
  ghost predicate SameRecords(a: seq<Envelope>, b: seq<Envelope>) {
    && |a| == |b|
    && forall i :: 0 <= i < |a| ==>
         a[i].record == b[i].record && a[i].previousHash == b[i].previousHash && a[i].recordHash == b[i].recordHash
  }

  lemma ChainExtends(crypto: Crypto, es: seq<Envelope>, e: Envelope)
    ensures Chained(crypto, es + [e]) <==> Chained(crypto, es) && VerifyLink(crypto, e, LastHash(es)).Ok?
  {
    var longer := es + [e];
    assert longer[..|es|] == es && longer[|es|] == e;
    forall i | 0 <= i < |es|
      ensures longer[..i] == es[..i] && longer[i] == es[i]
    {
    }
    if Chained(crypto, longer) {
      forall i | 0 <= i < |es|
        ensures VerifyLink(crypto, es[i], LastHash(es[..i])).Ok?
      {
        assert VerifyLink(crypto, longer[i], LastHash(longer[..i])).Ok?;
      }
      assert VerifyLink(crypto, longer[|es|], LastHash(longer[..|es|])).Ok?;
    }
  }

  /** A text splits at its first bar in one way only. */
  lemma SplitAtBar(a: string, x: string, b: string, y: string)
    requires '|' !in a && '|' !in b
    requires a + "|" + x == b + "|" + y
    ensures a == b && x == y
  {
    var s, t := a + "|" + x, b + "|" + y;
    assert s[|a|] == '|' && t[|b|] == '|';
    assert forall i :: 0 <= i < |a| ==> s[i] == a[i] && s[i] in a;
    assert forall i :: 0 <= i < |b| ==> t[i] == b[i] && t[i] in b;
    assert |a| == |b|;
    assert a == s[..|a|] && b == t[..|b|];
    assert x == s[|a| + 1..] && y == t[|b| + 1..];
  }

  lemma HashBindsBoth(crypto: Crypto, r: AuditRecord, p: string, s: AuditRecord, q: string)
    requires CollisionFree(crypto) && '|' !in p && '|' !in q
    requires HashRecord(crypto, r, p) == HashRecord(crypto, s, q)
    ensures r == s && p == q
  {
    SplitAtBar(p, crypto.encode(r), q, crypto.encode(s));
  }

  lemma LastHashOfChain(crypto: Crypto, es: seq<Envelope>)
    requires CollisionFree(crypto) && Chained(crypto, es)
    ensures '|' !in LastHash(es)
    ensures es != [] ==> LastHash(es) != GENESIS
  {
    if es != [] {
      assert VerifyLink(crypto, es[|es| - 1], LastHash(es[..|es| - 1])).Ok?;
    }
  }

  /** The last hash binds the whole log: two verified logs that end in the same hash hold the same records, linked
      alike, in the same order. So an edit, deletion, insertion or reordering breaks the chain or changes the last
      hash. */
  lemma {:induction false} LastHashBindsRecords(crypto: Crypto, a: seq<Envelope>, b: seq<Envelope>)
    requires CollisionFree(crypto)
    requires Chained(crypto, a) && Chained(crypto, b) && LastHash(a) == LastHash(b)
    ensures SameRecords(a, b)
    decreases |a|
  {
    hide CollisionFree, HashRecord, Chained;
    LastHashOfChain(crypto, a);
    LastHashOfChain(crypto, b);
    if a == [] {
    } else {
      var a0, b0 := a[..|a| - 1], b[..|b| - 1];
      var x, y := a[|a| - 1], b[|b| - 1];
      assert a == a0 + [x] && b == b0 + [y];
      ChainExtends(crypto, a0, x);
      ChainExtends(crypto, b0, y);
      LastHashOfChain(crypto, a0);
      LastHashOfChain(crypto, b0);
      HashBindsBoth(crypto, x.record, LastHash(a0), y.record, LastHash(b0));
      LastHashBindsRecords(crypto, a0, b0);
    }
  }

  /** What the chain cannot see: cutting records off the end leaves a log that still verifies, with another last
      hash. */
  lemma TruncationVerifies(crypto: Crypto, es: seq<Envelope>, n: nat)
    requires CollisionFree(crypto) && Chained(crypto, es) && n < |es|
    ensures Chained(crypto, es[..n]) && LastHash(es[..n]) != LastHash(es)
  {
    forall i | 0 <= i < n
      ensures es[..n][..i] == es[..i] && es[..n][i] == es[i]
    {
    }
    if LastHash(es[..n]) == LastHash(es) {
      LastHashBindsRecords(crypto, es[..n], es);
    }
  }
}
