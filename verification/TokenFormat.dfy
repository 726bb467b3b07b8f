/** The payload of identity tokens. Strings are their UTF-8 bytes. */
module TokenFormat {
  import opened Prelude
  import opened Bits
  import Ids

  type Byte = n: int | 0 <= n < 256

  const FORMAT_VERSION: Byte := 1
  const NONCE_LEN := 16

  datatype Claims = Claims(username: seq<Byte>, issuerRegion: seq<Byte>, issuedAt: int, expiresAt: int,
                           nonce: seq<Byte>)

  datatype VerifyError = Malformed | UnsupportedVersion(version: Byte) | InvalidIssuerRegion

  // ----- the values that can be claimed -----

  predicate IsContinuation(b: Byte) { 0x80 <= b <= 0xBF }

  /** The length of the UTF-8 sequence at the front, or 0 if there is none. */
  function Utf8Length(s: seq<Byte>): (n: nat)
    requires s != []
    ensures n <= |s|
  {
    var b := s[0];
    if b < 0x80 then 1
    else if |s| >= 2 && 0xC2 <= b <= 0xDF && IsContinuation(s[1]) then 2
    else if |s| >= 3 && 0xE0 <= b <= 0xEF && IsContinuation(s[1]) && IsContinuation(s[2])
            && (b == 0xE0 ==> s[1] >= 0xA0) && (b == 0xED ==> s[1] <= 0x9F) then 3
    else if |s| >= 4 && 0xF0 <= b <= 0xF4 && IsContinuation(s[1]) && IsContinuation(s[2]) && IsContinuation(s[3])
            && (b == 0xF0 ==> s[1] >= 0x90) && (b == 0xF4 ==> s[1] <= 0x8F) then 4
    else 0
  }

  predicate ValidUtf8(s: seq<Byte>) {
    s == [] || (Utf8Length(s) > 0 && ValidUtf8(s[Utf8Length(s)..]))
  }

  // Unicode scalar values and their encoding, as in the table of section 3 of RFC 3629.

  predicate IsScalar(c: int) {
    0 <= c <= 0xD7FF || 0xE000 <= c <= 0x10FFFF
  }

  function Tail(n: nat): (b: Byte)
    requires n < 64
    ensures IsContinuation(b)
  {
    0x80 + n
  }

  function EncodeScalar(c: int): (s: seq<Byte>)
    requires IsScalar(c)
    ensures 1 <= |s| <= 4
  {
    if c < 0x80 then [c]
    else if c < 0x800 then [0xC0 + c / 64, Tail(c % 64)]
    else if c < 0x1_0000 then [0xE0 + c / 64 / 64, Tail(c / 64 % 64), Tail(c % 64)]
    else [0xF0 + c / 64 / 64 / 64, Tail(c / 64 / 64 % 64), Tail(c / 64 % 64), Tail(c % 64)]
  }

  function EncodeScalars(cs: seq<int>): (s: seq<Byte>)
    requires forall c :: c in cs ==> IsScalar(c)
  {
    if cs == [] then [] else EncodeScalar(cs[0]) + EncodeScalars(cs[1..])
  }

  /** Six more bits from a continuation byte. */
  function Join(high: nat, b: Byte): (c: nat)
    requires IsContinuation(b)
    ensures c / 64 == high && Tail(c % 64) == b && 64 * high <= c < 64 * high + 64
  {
    64 * high + (b as int - 0x80)
  }

  lemma TwoBytes(a: Byte, b: Byte)
    requires 0xC2 <= a <= 0xDF && IsContinuation(b)
    ensures var c := Join(a - 0xC0, b); IsScalar(c) && EncodeScalar(c) == [a, b]
  {
    hide Join, Tail;
  }

  lemma ThreeBytes(a: Byte, b: Byte, d: Byte)
    requires 0xE0 <= a <= 0xEF && IsContinuation(b) && IsContinuation(d)
    requires (a == 0xE0 ==> b >= 0xA0) && (a == 0xED ==> b <= 0x9F)
    ensures var c := Join(Join(a - 0xE0, b), d); IsScalar(c) && EncodeScalar(c) == [a, b, d]
  {
    hide Tail;
    var high := Join(a - 0xE0, b);
    assert 0x20 <= high <= 0x35F || 0x380 <= high < 0x400;
  }

  lemma FourBytes(a: Byte, b: Byte, d: Byte, e: Byte)
    requires 0xF0 <= a <= 0xF4 && IsContinuation(b) && IsContinuation(d) && IsContinuation(e)
    requires (a == 0xF0 ==> b >= 0x90) && (a == 0xF4 ==> b <= 0x8F)
    ensures var c := Join(Join(Join(a - 0xF0, b), d), e); IsScalar(c) && EncodeScalar(c) == [a, b, d, e]
  {
    hide Tail;
    var high := Join(a - 0xF0, b);
    assert 0x10 <= high < 0x110;
  }

  /** The scalar value at the front. */
  lemma FirstScalar(s: seq<Byte>) returns (c: int)
    requires s != [] && Utf8Length(s) > 0
    ensures IsScalar(c) && EncodeScalar(c) == s[..Utf8Length(s)]
  {
    hide Join, Tail, EncodeScalar;
    match Utf8Length(s) {
      case 1 =>
        c := s[0];
        OneByte(s[0]);
      case 2 =>
        c := Join(s[0] - 0xC0, s[1]);
        TwoBytes(s[0], s[1]);
      case 3 =>
        c := Join(Join(s[0] - 0xE0, s[1]), s[2]);
        ThreeBytes(s[0], s[1], s[2]);
      case _ =>
        c := Join(Join(Join(s[0] - 0xF0, s[1]), s[2]), s[3]);
        FourBytes(s[0], s[1], s[2], s[3]);
    }
  }

  lemma OneByte(a: Byte)
    requires a < 0x80
    ensures EncodeScalar(a) == [a]
  {
  }

  lemma ScalarReadsBack(c: int, rest: seq<Byte>)
    requires IsScalar(c)
    ensures Utf8Length(EncodeScalar(c) + rest) == |EncodeScalar(c)|
  {
  }

  ghost predicate IsEncodingOf(s: seq<Byte>, cs: seq<int>) {
    (forall c :: c in cs ==> IsScalar(c)) && s == EncodeScalars(cs)
  }

  /** Valid UTF-8 is exactly what encodes a sequence of scalar values. */
  lemma ValidUtf8Iff(s: seq<Byte>)
    ensures ValidUtf8(s) <==> exists cs :: IsEncodingOf(s, cs)
  {
    if ValidUtf8(s) {
      var cs := DecodeScalars(s);
    }
    if cs :| IsEncodingOf(s, cs) {
      EncodedIsValid(cs);
    }
  }

  lemma {:induction false} DecodeScalars(s: seq<Byte>) returns (cs: seq<int>)
    requires ValidUtf8(s)
    ensures IsEncodingOf(s, cs)
    decreases |s|
  {
    hide EncodeScalar, Utf8Length, IsScalar;
    if s == [] {
      cs := [];
    } else {
      var n := Utf8Length(s);
      var rest := DecodeScalars(s[n..]);
      var c := FirstScalar(s);
      cs := [c] + rest;
      assert cs[1..] == rest && s == s[..n] + s[n..];
    }
  }

  lemma {:induction false} EncodedIsValid(cs: seq<int>)
    requires forall c :: c in cs ==> IsScalar(c)
    ensures ValidUtf8(EncodeScalars(cs))
  {
    hide EncodeScalar, Utf8Length, IsScalar;
    if cs != [] {
      var first, rest := EncodeScalar(cs[0]), EncodeScalars(cs[1..]);
      EncodedIsValid(cs[1..]);
      ScalarReadsBack(cs[0], rest);
      assert (first + rest)[|first|..] == rest;
    }
  }

  /** One or more lowercase ASCII letters. */
  predicate ValidRegionBytes(s: seq<Byte>) {
    s != [] && forall b :: b in s ==> 0x61 <= b <= 0x7A
  }

  /** ASCII bytes as text. */
  function AsText(s: seq<Byte>): (t: string)
    ensures |t| == |s|
  {
    seq(|s|, i requires 0 <= i < |s| => s[i] as char)
  }

  /** The regions accepted are the texts that are region ids. */
  lemma RegionBytesIff(s: seq<Byte>)
    ensures ValidRegionBytes(s) <==> Ids.ValidRegion(AsText(s))
  {
    var t := AsText(s);
    forall i | 0 <= i < |s|
      ensures Ids.IsLower(t[i]) <==> 0x61 <= s[i] <= 0x7A
    {
    }
    if Ids.ValidRegion(t) {
      forall b | b in s
        ensures 0x61 <= b <= 0x7A
      {
        var i :| 0 <= i < |s| && s[i] == b;
        assert t[i] in t;
      }
    }
    if ValidRegionBytes(s) {
      forall c | c in t
        ensures Ids.IsLower(c)
      {
        var i :| 0 <= i < |t| && t[i] == c;
        assert s[i] in s;
      }
    }
  }

  predicate Encodable(c: Claims) {
    && ValidUtf8(c.username) && |c.username| <= 255
    && ValidRegionBytes(c.issuerRegion) && |c.issuerRegion| <= 255
    && IsI64(c.issuedAt) && IsI64(c.expiresAt)
    && |c.nonce| == NONCE_LEN
  }

  // ----- big-endian numbers -----

  function Pow256(w: nat): (r: nat)
    ensures r > 0
  {
    if w == 0 then 1 else 256 * Pow256(w - 1)
  }

  function ToBigEndian(n: nat, w: nat): (s: seq<Byte>)
    ensures |s| == w
  {
    if w == 0 then [] else ToBigEndian(n / 256, w - 1) + [n % 256]
  }

  function FromBigEndian(s: seq<Byte>): (n: nat)
    ensures n < Pow256(|s|)
  {
    if s == [] then 0 else 256 * FromBigEndian(s[..|s| - 1]) + s[|s| - 1]
  }

  lemma {:induction false} BigEndianReadsBack(n: nat, w: nat)
    requires n < Pow256(w)
    ensures FromBigEndian(ToBigEndian(n, w)) == n
  {
    if w > 0 {
      BigEndianReadsBack(n / 256, w - 1);
    }
  }

  lemma {:induction false} BigEndianWritesBack(s: seq<Byte>)
    ensures ToBigEndian(FromBigEndian(s), |s|) == s
  {
    if s != [] {
      BigEndianWritesBack(s[..|s| - 1]);
    }
  }

  /** Byte `i` of `w` is the digit of weight 256 to the power `w - 1 - i`: the most significant first. */
  lemma {:induction false} BigEndianDigit(n: nat, w: nat, i: nat)
    requires i < w
    ensures ToBigEndian(n, w)[i] == (n / Pow256(w - 1 - i)) % 256
    decreases w
  {
    if i < w - 1 {
      BigEndianDigit(n / 256, w - 1, i);
      DivideInTwo(n, 256, Pow256(w - 2 - i));
    } else {
      assert n / Pow256(0) == n;
    }
  }

  lemma EightBytes()
    ensures Pow256(8) == TWO_64
  {
  }

  /** A signed number in two's complement. */
  function I64Bytes(v: int): (s: seq<Byte>)
    requires IsI64(v)
    ensures |s| == 8
  {
    ToBigEndian(AsU64(v), 8)
  }

  function I64Value(s: seq<Byte>): (v: int)
    requires |s| == 8
    ensures IsI64(v)
  {
    EightBytes();
    AsI64(FromBigEndian(s))
  }

  lemma I64ReadsBack(v: int)
    requires IsI64(v)
    ensures I64Value(I64Bytes(v)) == v
  {
    BigEndianReadsBack(AsU64(v), 8);
  }

  lemma I64WritesBack(s: seq<Byte>)
    requires |s| == 8
    ensures I64Bytes(I64Value(s)) == s
  {
    BigEndianWritesBack(s);
  }

  // ----- the format -----

  function StringBytes(s: seq<Byte>): seq<Byte>
    requires |s| <= 255
  {
    [|s| as Byte] + s
  }

  function Encoding(c: Claims): (p: seq<Byte>)
    requires |c.username| <= 255 && |c.issuerRegion| <= 255 && IsI64(c.issuedAt) && IsI64(c.expiresAt)
  {
    [FORMAT_VERSION] + (StringBytes(c.username) + (StringBytes(c.issuerRegion) +
      (I64Bytes(c.issuedAt) + (I64Bytes(c.expiresAt) + c.nonce))))
  }

  /** A length-prefixed string at the front, and what follows it. */
  function TakeString(s: seq<Byte>): (r: Option<(seq<Byte>, seq<Byte>)>)
    ensures r.Some? ==> |r.value.0| <= 255 && ValidUtf8(r.value.0) && s == StringBytes(r.value.0) + r.value.1
  {
    if s == [] || 1 + s[0] > |s| || !ValidUtf8(s[1..1 + s[0]]) then None
    else Some((s[1..1 + s[0]], s[1 + s[0]..]))
  }

  function Take(s: seq<Byte>, n: nat): (r: Option<(seq<Byte>, seq<Byte>)>)
    ensures r.Some? ==> |r.value.0| == n && s == r.value.0 + r.value.1
  {
    if n > |s| then None else Some((s[..n], s[n..]))
  }

  /** What a payload stands for. */
  function Decoded(p: seq<Byte>): (r: Result<Claims, VerifyError>) {
    if p == [] then Err(Malformed)
    else if p[0] != FORMAT_VERSION then Err(UnsupportedVersion(p[0]))
    else
      var username := TakeString(p[1..]);
      if username.None? then Err(Malformed)
      else
        var region := TakeString(username.value.1);
        if region.None? then Err(Malformed)
        else
          var issuedAt := Take(region.value.1, 8);
          if issuedAt.None? then Err(Malformed)
          else
            var expiresAt := Take(issuedAt.value.1, 8);
            if expiresAt.None? then Err(Malformed)
            else
              var nonce := Take(expiresAt.value.1, NONCE_LEN);
              if nonce.None? || nonce.value.1 != [] then Err(Malformed)
              else if !ValidRegionBytes(region.value.0) then Err(InvalidIssuerRegion)
              else Ok(Claims(username.value.0, region.value.0, I64Value(issuedAt.value.0),
                             I64Value(expiresAt.value.0), nonce.value.0))
  }

  lemma TakeStringBack(s: seq<Byte>, rest: seq<Byte>)
    requires |s| <= 255 && ValidUtf8(s)
    ensures TakeString(StringBytes(s) + rest) == Some((s, rest))
  {
  }

  lemma TakeBack(s: seq<Byte>, rest: seq<Byte>)
    ensures Take(s + rest, |s|) == Some((s, rest))
  {
  }

  lemma {:induction false} RegionIsUtf8(s: seq<Byte>)
    requires forall b :: b in s ==> 0x61 <= b <= 0x7A
    ensures ValidUtf8(s)
  {
    if s != [] {
      assert s[0] in s && forall b :: b in s[1..] ==> b in s;
      RegionIsUtf8(s[1..]);
    }
  }

  /** Where each field of a payload lies. */
  lemma EncodingLayout(c: Claims)
    requires Encodable(c)
    ensures var p, u, r := Encoding(c), |c.username|, |c.issuerRegion|;
            && |p| == 35 + u + r
            && p[0] == 1
            && p[1] == u && p[2..2 + u] == c.username
            && p[2 + u] == r && p[3 + u..3 + u + r] == c.issuerRegion
            && p[3 + u + r..11 + u + r] == I64Bytes(c.issuedAt)
            && p[11 + u + r..19 + u + r] == I64Bytes(c.expiresAt)
            && p[19 + u + r..] == c.nonce
  {
  }

  lemma EncodingNests(c: Claims)
    requires WellFormed(c)
    ensures Encoding(c) != [] && Encoding(c)[0] == FORMAT_VERSION
    ensures Encoding(c)[1..] ==
            StringBytes(c.username) +
            (StringBytes(c.issuerRegion) + (I64Bytes(c.issuedAt) + (I64Bytes(c.expiresAt) + c.nonce)))
  {
    hide I64Bytes, StringBytes;
  }

  /** Decoding an encoding gives the claims back. */
  lemma DecodeEncode(c: Claims)
    requires Encodable(c)
    ensures Decoded(Encoding(c)) == Ok(c)
  {
    RegionIsUtf8(c.issuerRegion);
    DecodeWellFormed(c);
  }

  /** Every accepted payload is the encoding of what it decodes to. */
  lemma EncodeDecode(p: seq<Byte>)
    requires Decoded(p).Ok?
    ensures Encodable(Decoded(p).value) && Encoding(Decoded(p).value) == p
  {
    var c := WellFormedBut(p);
  }

  /** Different claims have different payloads, so a signature covers one set of claims. */
  lemma EncodingIsInjective(c: Claims, d: Claims)
    requires Encodable(c) && Encodable(d) && Encoding(c) == Encoding(d)
    ensures c == d
  {
    DecodeEncode(c);
    DecodeEncode(d);
  }

  /** All but the region's alphabet is as in an encodable set of claims. */
  predicate WellFormed(c: Claims) {
    && ValidUtf8(c.username) && |c.username| <= 255
    && ValidUtf8(c.issuerRegion) && |c.issuerRegion| <= 255
    && IsI64(c.issuedAt) && IsI64(c.expiresAt)
    && |c.nonce| == NONCE_LEN
  }

  /** Which error a rejected payload gives: another version says so; a payload that is well formed
      but for its region gives the region's error; everything else is malformed. */
  lemma DecodedErrors(p: seq<Byte>)
    ensures Decoded(p).Err? && Decoded(p).error.UnsupportedVersion? <==> p != [] && p[0] != 1
    ensures Decoded(p).Err? && Decoded(p).error.UnsupportedVersion? ==> Decoded(p).error.version == p[0]
    ensures Decoded(p) == Err(InvalidIssuerRegion) <==>
            exists c :: WellFormed(c) && !ValidRegionBytes(c.issuerRegion) && Encoding(c) == p
  {
    hide ValidUtf8, I64Value, I64Bytes, StringBytes, ValidRegionBytes;
    if Decoded(p) == Err(InvalidIssuerRegion) {
      var c := WellFormedBut(p);
    }
    forall c | WellFormed(c) && !ValidRegionBytes(c.issuerRegion) && Encoding(c) == p
      ensures Decoded(p) == Err(InvalidIssuerRegion)
    {
      DecodeWellFormed(c);
    }
  }

  /** Reading the fields back, whatever the region. */
  lemma DecodeWellFormed(c: Claims)
    requires WellFormed(c)
    ensures Decoded(Encoding(c)) == if ValidRegionBytes(c.issuerRegion) then Ok(c) else Err(InvalidIssuerRegion)
  {
    hide ValidUtf8, TakeString, Take, I64Value, I64Bytes, StringBytes, Encoding, ValidRegionBytes;
    var p4 := I64Bytes(c.expiresAt) + c.nonce;
    var p3 := I64Bytes(c.issuedAt) + p4;
    var p2 := StringBytes(c.issuerRegion) + p3;
    EncodingNests(c);
    TakeStringBack(c.username, p2);
    TakeStringBack(c.issuerRegion, p3);
    TakeBack(I64Bytes(c.issuedAt), p4);
    TakeBack(I64Bytes(c.expiresAt), c.nonce);
    assert c.nonce == c.nonce + [];
    TakeBack(c.nonce, []);
    I64ReadsBack(c.issuedAt);
    I64ReadsBack(c.expiresAt);
  }

  lemma FirstAndRest(p: seq<Byte>, q: seq<Byte>)
    requires p != [] && q != [] && p[0] == q[0] && p[1..] == q[1..]
    ensures p == q
  {
    assert p == [p[0]] + p[1..] && q == [q[0]] + q[1..];
  }

  /** The fields of a payload that is accepted, or rejected for its region alone. */
  lemma WellFormedBut(p: seq<Byte>) returns (c: Claims)
    requires Decoded(p).Ok? || Decoded(p) == Err(InvalidIssuerRegion)
    ensures WellFormed(c) && Encoding(c) == p && (ValidRegionBytes(c.issuerRegion) <==> Decoded(p).Ok?)
    ensures Decoded(p).Ok? ==> Decoded(p).value == c
  {
    hide ValidUtf8, I64Value, I64Bytes, StringBytes, ValidRegionBytes, TakeString, Take, Encoding;
    var (username, p1) := TakeString(p[1..]).value;
    var (region, p2) := TakeString(p1).value;
    var (issuedAt, p3) := Take(p2, 8).value;
    var (expiresAt, p4) := Take(p3, 8).value;
    var (nonce, p5) := Take(p4, NONCE_LEN).value;
    I64WritesBack(issuedAt);
    I64WritesBack(expiresAt);
    c := Claims(username, region, I64Value(issuedAt), I64Value(expiresAt), nonce);
    EncodingNests(c);
    assert nonce + [] == nonce;
    FirstAndRest(p, Encoding(c));
  }

  // ----- the buffer and the cursor -----

  /** Push the fields into a buffer. Longer strings make the original panic. */
  method Encode(c: Claims) returns (out: seq<Byte>)
    requires |c.username| <= 255 && |c.issuerRegion| <= 255 && IsI64(c.issuedAt) && IsI64(c.expiresAt)
    ensures out == Encoding(c)
  {
    out := [FORMAT_VERSION];
    out := out + [|c.username| as Byte];
    out := out + c.username;
    out := out + [|c.issuerRegion| as Byte];
    out := out + c.issuerRegion;
    out := out + I64Bytes(c.issuedAt);
    out := out + I64Bytes(c.expiresAt);
    out := out + c.nonce;
  }

  method ReadU8(buf: seq<Byte>, cur: nat) returns (r: Result<Byte, VerifyError>, next: nat)
    requires cur <= |buf|
    ensures cur < |buf| ==> r == Ok(buf[cur]) && next == cur + 1
    ensures cur == |buf| ==> r == Err(Malformed) && next == cur
  {
    if cur >= |buf| {
      return Err(Malformed), cur;
    }
    return Ok(buf[cur]), cur + 1;
  }

  method ReadString(buf: seq<Byte>, cur: nat) returns (r: Result<seq<Byte>, VerifyError>, next: nat)
    requires cur <= |buf|
    ensures next <= |buf|
    ensures TakeString(buf[cur..]).None? ==> r == Err(Malformed)
    ensures TakeString(buf[cur..]).Some? ==>
              r == Ok(TakeString(buf[cur..]).value.0) && buf[next..] == TakeString(buf[cur..]).value.1
  {
    var len;
    len, next := ReadU8(buf, cur);
    if len.Err? {
      return Err(len.error), next;
    }
    if next + len.value > |buf| {
      return Err(Malformed), next;
    }
    var s := buf[next..next + len.value];
    assert s == buf[cur..][1..1 + len.value];
    if !ValidUtf8(s) {
      return Err(Malformed), next;
    }
    return Ok(s), next + len.value;
  }

  method ReadArray(buf: seq<Byte>, cur: nat, n: nat) returns (r: Result<seq<Byte>, VerifyError>, next: nat)
    requires cur <= |buf|
    ensures next <= |buf|
    ensures Take(buf[cur..], n).None? ==> r == Err(Malformed)
    ensures Take(buf[cur..], n).Some? ==>
              r == Ok(Take(buf[cur..], n).value.0) && buf[next..] == Take(buf[cur..], n).value.1
  {
    if cur + n > |buf| {
      return Err(Malformed), cur;
    }
    assert buf[cur..cur + n] == buf[cur..][..n] && buf[cur + n..] == buf[cur..][n..];
    return Ok(buf[cur..cur + n]), cur + n;
  }

  method ReadI64(buf: seq<Byte>, cur: nat) returns (r: Result<int, VerifyError>, next: nat)
    requires cur <= |buf|
    ensures next <= |buf|
    ensures Take(buf[cur..], 8).None? ==> r == Err(Malformed)
    ensures Take(buf[cur..], 8).Some? ==>
              r == Ok(I64Value(Take(buf[cur..], 8).value.0)) && buf[next..] == Take(buf[cur..], 8).value.1
  {
    var bytes;
    bytes, next := ReadArray(buf, cur, 8);
    r := if bytes.Ok? then Ok(I64Value(bytes.value)) else Err(bytes.error);
  }

  /** Decode with a cursor: accepts exactly the encodings of encodable claims. */
  method Decode(payload: seq<Byte>) returns (r: Result<Claims, VerifyError>)
    ensures r == Decoded(payload)
    ensures r.Ok? ==> Encodable(r.value) && Encoding(r.value) == payload
    ensures r.Err? ==> forall c :: Encodable(c) ==> Encoding(c) != payload
  {
    hide Encodable, Encoding, TakeString, Take, I64Value, ValidRegionBytes;
    DecodedIsExact(payload);
    var cur := 0;
    var version;
    version, cur := ReadU8(payload, cur);
    if version.Err? {
      return Err(version.error);
    }
    if version.value != FORMAT_VERSION {
      return Err(UnsupportedVersion(version.value));
    }
    var username;
    username, cur := ReadString(payload, cur);
    if username.Err? {
      return Err(username.error);
    }
    var region;
    region, cur := ReadString(payload, cur);
    if region.Err? {
      return Err(region.error);
    }
    var issuedAt, expiresAt;
    issuedAt, cur := ReadI64(payload, cur);
    if issuedAt.Err? {
      return Err(issuedAt.error);
    }
    expiresAt, cur := ReadI64(payload, cur);
    if expiresAt.Err? {
      return Err(expiresAt.error);
    }
    var nonce;
    nonce, cur := ReadArray(payload, cur, NONCE_LEN);
    if nonce.Err? {
      return Err(nonce.error);
    }
    if cur != |payload| {
      return Err(Malformed);
    }
    if !ValidRegionBytes(region.value) {
      return Err(InvalidIssuerRegion);
    }
    r := Ok(Claims(username.value, region.value, issuedAt.value, expiresAt.value, nonce.value));
  }

  lemma DecodedIsExact(payload: seq<Byte>)
    ensures Decoded(payload).Ok? ==> Encodable(Decoded(payload).value) && Encoding(Decoded(payload).value) == payload
    ensures Decoded(payload).Err? ==> forall c :: Encodable(c) ==> Encoding(c) != payload
  {
    if Decoded(payload).Ok? {
      EncodeDecode(payload);
    } else {
      forall c | Encodable(c)
        ensures Encoding(c) != payload
      {
        DecodeEncode(c);
      }
    }
  }
}
