/** Object identifiers in REST paths: percent-encoding (sections 2.1 and 2.3 of RFC 3986) and routing. */
module RestPath {
  import opened Wrappers
  import opened Text
  import opened Journal

  newtype Byte = n: int | 0 <= n < 256

  const OBJECTS := "/mip4-ies/v1/objects"
  const SYNC := "/mip4-ies/v1/sync"

  predicate Unreserved(b: int) {
    'A' as int <= b <= 'Z' as int || 'a' as int <= b <= 'z' as int || '0' as int <= b <= '9' as int
    || b == '-' as int || b == '_' as int || b == '.' as int || b == '~' as int
  }

  /** An upper-case hexadecimal digit. */
  function HexDigit(n: int): (c: char)
    requires 0 <= n < 16
    ensures c as int < 128 && Unreserved(c as int)
  {
    if n < 10 then ('0' as int + n) as char else ('A' as int + n - 10) as char
  }

  function HexNibble(b: Byte): (r: Option<int>)
    ensures r.Some? ==> 0 <= r.value < 16
  {
    var n := b as int;
    if '0' as int <= n <= '9' as int then Some(n - '0' as int)
    else if 'a' as int <= n <= 'f' as int then Some(n - 'a' as int + 10)
    else if 'A' as int <= n <= 'F' as int then Some(n - 'A' as int + 10)
    else None
  }

  /** The characters a path may carry unencoded: letters, digits and four marks, by code point. */
  lemma UnreservedExactly(b: int)
    ensures Unreserved(b) <==> 65 <= b <= 90 || 97 <= b <= 122 || 48 <= b <= 57 || b in {45, 46, 95, 126}
  {
  }

  /** A triple is written with capital digits and may be read with either. */
  lemma DigitsExactly(b: Byte, n: nat)
    requires n < 16
    ensures HexDigit(n) == "0123456789ABCDEF"[n]
    ensures HexNibble(b) == Some(n) <==>
      b as int as char == "0123456789ABCDEF"[n] || b as int as char == "0123456789abcdef"[n]
  {
  }

  // ---- Encoding

  function EncodeByte(b: Byte): string {
    if Unreserved(b as int) then [b as int as char]
    else ['%', HexDigit(b as int / 16), HexDigit(b as int % 16)]
  }

  function Encode(oid: seq<Byte>): string {
    if oid == [] then "" else EncodeByte(oid[0]) + Encode(oid[1..])
  }

  method PushEncoded(text: string, b: Byte) returns (longer: string)
    ensures longer == text + EncodeByte(b)
  {
    var n := b as int;
    if Unreserved(n) {
      longer := text + [n as char];
    } else {
      longer := text + ['%'];
      longer := longer + [HexDigit(n / 16)];
      longer := longer + [HexDigit(n % 16)];
    }
  }

  method EncodeOidForPath(oid: seq<Byte>) returns (encoded: string)
    ensures encoded == Encode(oid)
  {
    hide EncodeByte;
    encoded := "";
    for n := 0 to |oid|
      invariant encoded + Encode(oid[n..]) == Encode(oid)
    {
      assert oid[n..][0] == oid[n] && oid[n..][1..] == oid[n + 1..];
      encoded := PushEncoded(encoded, oid[n]);
    }
  }

  // ---- Decoding

  /** The bytes of an ASCII text. */
  function AsciiBytes(s: string): seq<Byte>
    requires forall c :: c in s ==> c as int < 128
  {
    seq(|s|, i requires 0 <= i < |s| => assert s[i] in s; s[i] as int as Byte)
  }

  const PERCENT: Byte := 37

  predicate StartsTriple(bytes: seq<Byte>) {
    |bytes| > 2 && bytes[0] == PERCENT && HexNibble(bytes[1]).Some? && HexNibble(bytes[2]).Some?
  }

  function TripleValue(bytes: seq<Byte>): Byte
    requires StartsTriple(bytes)
  {
    (HexNibble(bytes[1]).value * 16 + HexNibble(bytes[2]).value) as Byte
  }

  function DecodeBytes(bytes: seq<Byte>): seq<Byte> {
    if bytes == [] then []
    else if StartsTriple(bytes) then [TripleValue(bytes)] + DecodeBytes(bytes[3..])
    else [bytes[0]] + DecodeBytes(bytes[1..])
  }

  /** A decoded segment that is not valid UTF-8 is given back undecoded. */
  function PercentDecode(segment: seq<Byte>, utf8: seq<Byte> -> bool): seq<Byte> {
    if utf8(DecodeBytes(segment)) then DecodeBytes(segment) else segment
  }

  /** Whatever stands in the text: a triple of a percent sign and two hexadecimal digits is one byte, and every other
      byte is itself. */
  lemma DecodedExactly(b: Byte, rest: seq<Byte>)
    ensures DecodeBytes([b] + rest) ==
      if b == 37 && |rest| >= 2 && HexNibble(rest[0]).Some? && HexNibble(rest[1]).Some?
      then [(HexNibble(rest[0]).value * 16 + HexNibble(rest[1]).value) as Byte] + DecodeBytes(rest[2..])
      else [b] + DecodeBytes(rest)
  {
    hide HexNibble, TripleValue, DecodeBytes;
    var bytes := [b] + rest;
    assert bytes[0] == b && bytes[1..] == rest;
    DecodeStep(bytes);
    if |rest| >= 2 {
      assert bytes[3..] == rest[2..];
      if StartsTriple(bytes) {
        TripleAhead(b, rest);
      }
    }
  }

  lemma DecodeStep(bytes: seq<Byte>)
    requires bytes != []
    ensures StartsTriple(bytes) ==> DecodeBytes(bytes) == [TripleValue(bytes)] + DecodeBytes(bytes[3..])
    ensures !StartsTriple(bytes) ==> DecodeBytes(bytes) == [bytes[0]] + DecodeBytes(bytes[1..])
  {
    hide HexNibble, TripleValue;
  }

  /** What was decoded is taken exactly when it is valid UTF-8. */
  lemma DecodedOrKept(segment: seq<Byte>, utf8: seq<Byte> -> bool)
    ensures utf8(DecodeBytes(segment)) ==> PercentDecode(segment, utf8) == DecodeBytes(segment)
    ensures PercentDecode(segment, utf8) == segment || utf8(PercentDecode(segment, utf8))
  {
    hide DecodeBytes;
  }

  lemma TripleAhead(b: Byte, rest: seq<Byte>)
    requires |rest| >= 2 && StartsTriple([b] + rest)
    ensures HexNibble(rest[0]).Some? && HexNibble(rest[1]).Some?
    ensures TripleValue([b] + rest) as int == HexNibble(rest[0]).value * 16 + HexNibble(rest[1]).value
  {
    hide HexNibble;
    assert ([b] + rest)[1] == rest[0] && ([b] + rest)[2] == rest[1];
  }

  method PercentDecodePathSegment(bytes: seq<Byte>, utf8: seq<Byte> -> bool) returns (r: seq<Byte>)
    ensures r == PercentDecode(bytes, utf8)
  {
    var decoded: seq<Byte> := [];
    var index := 0;
    while index < |bytes|
      invariant 0 <= index <= |bytes|
      invariant decoded + DecodeBytes(bytes[index..]) == DecodeBytes(bytes)
    {
      ghost var rest := bytes[index..];
      if bytes[index] == PERCENT && index + 2 < |bytes| {
        var hi, lo := HexNibble(bytes[index + 1]), HexNibble(bytes[index + 2]);
        if hi.Some? && lo.Some? {
          assert StartsTriple(rest) && rest[3..] == bytes[index + 3..];
          decoded := decoded + [(hi.value * 16 + lo.value) as Byte];
          index := index + 3;
          continue;
        }
      }
      assert !StartsTriple(rest) && rest[1..] == bytes[index + 1..];
      decoded := decoded + [bytes[index]];
      index := index + 1;
    }
    assert bytes[index..] == [] && DecodeBytes([]) == [];
    assert decoded + [] == decoded;
    r := if utf8(decoded) then decoded else bytes;
  }

  // ---- The two are inverse

  predicate PathSafe(c: char) {
    c as int < 128 && (Unreserved(c as int) || c == '%')
  }

  lemma {:induction false} EncodedIsPathSafe(oid: seq<Byte>)
    ensures forall c :: c in Encode(oid) ==> PathSafe(c)
    ensures oid != [] <==> Encode(oid) != ""
  {
    if oid == [] {
    } else {
      EncodedIsPathSafe(oid[1..]);
    }
  }

  lemma EncodeByteDecodes(b: Byte, rest: seq<Byte>)
    ensures forall c :: c in EncodeByte(b) ==> c as int < 128
    ensures DecodeBytes(AsciiBytes(EncodeByte(b)) + rest) == [b] + DecodeBytes(rest)
  {
    var bytes := AsciiBytes(EncodeByte(b)) + rest;
    if Unreserved(b as int) {
      assert bytes[0] == b && bytes[1..] == rest;
    } else {
      assert HexNibble(bytes[1]) == Some(b as int / 16) && HexNibble(bytes[2]) == Some(b as int % 16);
      assert bytes[3..] == rest;
    }
  }

  lemma NothingDecodes()
    ensures DecodeBytes([]) == []
  {
  }

  /** Decoding inverts encoding on every byte string. */
  lemma {:induction false} EncodedDecodes(oid: seq<Byte>)
    ensures forall c :: c in Encode(oid) ==> c as int < 128
    ensures DecodeBytes(AsciiBytes(Encode(oid))) == oid
  {
    hide EncodeByte, DecodeBytes;
    EncodedIsPathSafe(oid);
    if oid == [] {
      NothingDecodes();
      assert AsciiBytes(Encode(oid)) == [];
    } else {
      var rest := Encode(oid[1..]);
      EncodedIsPathSafe(oid[1..]);
      EncodedDecodes(oid[1..]);
      EncodeByteDecodes(oid[0], AsciiBytes(rest));
      assert AsciiBytes(Encode(oid)) == AsciiBytes(EncodeByte(oid[0])) + AsciiBytes(rest);
      assert oid == [oid[0]] + oid[1..];
    }
  }

  // ---- Routing

  datatype HttpMethod = Get | Put | Delete

  datatype RouteError = Unsupported | InvalidRequest

  datatype Route = Route(verb: HttpMethod, path: string, operation: Operation)

  function NormalizePath(path: string): string {
    var trimmed := Trim(path);
    TrimEndMatches(trimmed[..Find(trimmed, '?')], '/')
  }

  function ParseRoute(verb: HttpMethod, path: string): Result<Route, RouteError> {
    var normalized := NormalizePath(path);
    if verb == Put && normalized == OBJECTS then Ok(Route(verb, normalized, PutObject))
    else if verb == Get && normalized == OBJECTS then Ok(Route(verb, normalized, GetByFilter))
    else if verb == Get && StartsWith(normalized, OBJECTS + "/") then Ok(Route(verb, normalized, GetByOid))
    else if verb == Delete && StartsWith(normalized, OBJECTS + "/") then Ok(Route(verb, normalized, DeleteObject))
    else if verb == Get && normalized == SYNC then Ok(Route(verb, normalized, Sync))
    else Err(Unsupported)
  }

  function OidFromPath(path: string): Result<string, RouteError> {
    var prefix, normalized := OBJECTS + "/", NormalizePath(path);
    if StartsWith(normalized, prefix) && normalized[|prefix|..] != "" then Ok(normalized[|prefix|..])
    else Err(InvalidRequest)
  }

  function ObjectPath(oid: seq<Byte>): string {
    OBJECTS + "/" + Encode(oid)
  }

  lemma ObjectPathIsNormal(oid: seq<Byte>)
    ensures NormalizePath(ObjectPath(oid)) == if oid == [] then OBJECTS else ObjectPath(oid)
  {
    hide Trim, Find, Encode;
    EncodedIsPathSafe(oid);
    var path := ObjectPath(oid);
    if oid == [] {
      assert path == OBJECTS + "/";
      assert path[..|path| - 1] == OBJECTS;
      assert TrimEndMatches(OBJECTS, '/') == OBJECTS;
      assert TrimEndMatches(path, '/') == OBJECTS;
    } else {
      var encoded := Encode(oid);
      assert path[|path| - 1] == encoded[|encoded| - 1] && encoded[|encoded| - 1] in encoded;
    }
    TrimFixes(path);
    assert '?' !in path by {
      assert '?' !in OBJECTS + "/";
    }
    assert Find(path, '?') == |path| && path[..|path|] == path;
  }

  /** The path of any non-empty identifier routes to its object, and the identifier read off the path is the encoded
      one; the empty identifier's path is the collection, where Get is a query and Delete is refused. */
  lemma ObjectPathRoutes(oid: seq<Byte>)
    ensures oid != [] ==>
      && ParseRoute(Get, ObjectPath(oid)) == Ok(Route(Get, ObjectPath(oid), GetByOid))
      && ParseRoute(Delete, ObjectPath(oid)) == Ok(Route(Delete, ObjectPath(oid), DeleteObject))
      && ParseRoute(Put, ObjectPath(oid)) == Err(Unsupported)
      && OidFromPath(ObjectPath(oid)) == Ok(Encode(oid))
    ensures oid == [] ==>
      && ParseRoute(Get, ObjectPath(oid)) == Ok(Route(Get, OBJECTS, GetByFilter))
      && ParseRoute(Delete, ObjectPath(oid)) == Err(Unsupported)
      && OidFromPath(ObjectPath(oid)) == Err(InvalidRequest)
  {
    hide NormalizePath, Encode;
    ObjectPathIsNormal(oid);
    EncodedIsPathSafe(oid);
    var prefix := OBJECTS + "/";
    assert ObjectPath(oid) == prefix + Encode(oid);
    assert |OBJECTS| < |prefix|;
    assert ObjectPath(oid)[|prefix|..] == Encode(oid);
  }

  /** From identifier to path, through the route, and back through the decoder. */
  lemma IdentifierSurvivesPath(oid: seq<Byte>, utf8: seq<Byte> -> bool)
    requires oid != [] && utf8(oid)
    ensures var segment := OidFromPath(ObjectPath(oid));
      && segment.Ok? && (forall c :: c in segment.value ==> PathSafe(c))
      && PercentDecode(AsciiBytes(segment.value), utf8) == oid
  {
    hide Encode, ObjectPath, OidFromPath, DecodeBytes;
    ObjectPathRoutes(oid);
    EncodedIsPathSafe(oid);
    EncodedDecodes(oid);
  }

  // ---- Every path

  /** The text in front of the first question mark, without white space around it and without slashes at its end. */
  ghost predicate IsPathOf(text: string, path: string, k: nat) {
    && |path| <= k <= |text| && text[..|path|] == path && '?' !in text[..k] && (k == |text| || text[k] == '?')
    && (forall i :: |path| <= i < k ==> text[i] == '/') && (path == "" || path[|path| - 1] != '/')
  }

  lemma PathExactly(raw: string, path: string)
    ensures NormalizePath(raw) == path <==> exists k: nat :: IsPathOf(Trim(raw), path, k)
  {
    hide Trim, Find, TrimEndMatches;
    var text := Trim(raw);
    var n := Find(text, '?');
    var found := NormalizePath(raw);
    assert IsPathOf(text, found, n) by {
      assert text[..n][..|found|] == text[..|found|];
      forall i | |found| <= i < n
        ensures text[i] == '/'
      {
        assert text[i] == text[..n][i];
      }
    }
    if k: nat :| IsPathOf(text, path, k) {
      FirstMark(text, k);
      SamePath(text, path, found, k);
    }
  }

  lemma SamePath(text: string, a: string, b: string, k: nat)
    requires IsPathOf(text, a, k) && IsPathOf(text, b, k)
    ensures a == b
  {
    assert b != "" ==> text[|b| - 1] == b[|b| - 1];
    assert a != "" ==> text[|a| - 1] == a[|a| - 1];
    assert |a| == |b|;
  }

  lemma FirstMark(text: string, k: nat)
    requires k <= |text| && '?' !in text[..k] && (k == |text| || text[k] == '?')
    ensures Find(text, '?') == k
  {
    if k < |text| {
      FindFirst(text, '?', k);
    } else {
      assert text[..k] == text;
    }
  }

  /** A request is for an object when its path goes on below the collection. */
  ghost predicate Below(path: string, oid: string) {
    path == "/mip4-ies/v1/objects/" + oid
  }

  /** Which requests reach which operation; every other request is unsupported. */
  lemma RoutesExactly(verb: HttpMethod, raw: string, operation: Operation)
    ensures var path := NormalizePath(raw);
      ParseRoute(verb, raw) == Ok(Route(verb, path, operation)) <==>
      || (path == "/mip4-ies/v1/objects" && verb == Put && operation == PutObject)
      || (path == "/mip4-ies/v1/objects" && verb == Get && operation == GetByFilter)
      || ((exists oid :: Below(path, oid)) && verb == Get && operation == GetByOid)
      || ((exists oid :: Below(path, oid)) && verb == Delete && operation == DeleteObject)
      || (path == "/mip4-ies/v1/sync" && verb == Get && operation == Sync)
    ensures var r := ParseRoute(verb, raw);
      r == Err(Unsupported) || (r.Ok? && r.value.verb == verb && r.value.path == NormalizePath(raw))
  {
    hide NormalizePath;
    var path, prefix := NormalizePath(raw), "/mip4-ies/v1/objects/";
    assert OBJECTS + "/" == prefix;
    if StartsWith(path, prefix) {
      assert Below(path, path[|prefix|..]);
    }
  }

  /** The identifier of a path is what is below the collection, when there is something. */
  lemma OidExactly(raw: string, oid: string)
    ensures OidFromPath(raw) == Ok(oid) <==> oid != "" && Below(NormalizePath(raw), oid)
    ensures OidFromPath(raw).Ok? || OidFromPath(raw) == Err(InvalidRequest)
  {
    hide NormalizePath;
    assert OBJECTS + "/" == "/mip4-ies/v1/objects/";
  }
}
