/**
 The ServerKeyExchange message (pkg/tls/wire/server_response.go; section 7.4.3 of
 RFC 5246, section 5.4 of RFC 4492): the group a key exchange was done over, the size
 of a finite-field prime, and what signed it.
 */
module KeyExchanges {
  import opened Bytes
  import opened Readers
  import opened ServerHellos

  // --- The size of a prime ----------------------------------------------------------

  // A big-endian integer of any length.
  function Value(bytes: seq<Byte>): nat {
    if bytes == [] then 0 else 0x100 * Value(bytes[..|bytes| - 1]) + bytes[|bytes| - 1]
  }

  function Pow2(n: nat): nat {
    if n == 0 then 1 else 2 * Pow2(n - 1)
  }

  // bits is the bit length of n.
  ghost predicate IsBitLength(n: nat, bits: nat) {
    if n == 0 then bits == 0 else bits > 0 && Pow2(bits - 1) <= n < Pow2(bits)
  }

  lemma {:induction false} Pow2Monotone(a: nat, b: nat)
    requires a <= b
    ensures Pow2(a) <= Pow2(b)
    decreases b - a
  {
    if a < b {
      Pow2Monotone(a + 1, b);
    }
  }

  lemma BitLengthUnique(n: nat, a: nat, b: nat)
    requires IsBitLength(n, a) && IsBitLength(n, b)
    ensures a == b
  {
    if n != 0 && a < b {
      Pow2Monotone(a, b - 1);
    } else if n != 0 && b < a {
      Pow2Monotone(b, a - 1);
    }
  }

  lemma {:induction false} LeadingZeros(bytes: seq<Byte>, zeros: nat)
    requires zeros <= |bytes| && forall i :: 0 <= i < zeros ==> bytes[i] == 0
    ensures Value(bytes) == Value(bytes[zeros..])
  {
    if zeros < |bytes| {
      var n := |bytes| - 1;
      LeadingZeros(bytes[..n], zeros);
      assert bytes[zeros..][..n - zeros] == bytes[..n][zeros..];
    } else if bytes != [] {
      LeadingZeros(bytes[..|bytes| - 1], zeros - 1);
      assert bytes[..|bytes| - 1][zeros - 1..] == [];
    }
  }

  lemma Pow2Byte(bits: nat)
    ensures Pow2(bits + 8) == 0x100 * Pow2(bits)
  {
    assert Pow2(bits + 2) == 4 * Pow2(bits);
    assert Pow2(bits + 4) == 4 * Pow2(bits + 2);
    assert Pow2(bits + 6) == 4 * Pow2(bits + 4);
    assert Pow2(bits + 8) == 4 * Pow2(bits + 6);
  }

  // Each further byte adds eight to the bit length of a value that is not zero.
  lemma {:induction false} BitLengthOfBytes(bytes: seq<Byte>, leading: nat)
    requires bytes != [] && bytes[0] != 0 && IsBitLength(bytes[0], leading)
    ensures IsBitLength(Value(bytes), 8 * (|bytes| - 1) + leading)
  {
    var n := |bytes| - 1;
    if n == 0 {
      assert bytes[..0] == [];
      assert Value(bytes) == bytes[0];
    } else {
      BitLengthOfBytes(bytes[..n], leading);
      var bits := 8 * (n - 1) + leading;
      Pow2Byte(bits);
      Pow2Byte(bits - 1);
      assert Value(bytes) == 0x100 * Value(bytes[..n]) + bytes[n];
    }
  }

  // The bit length as a number.
  function BitLength(n: nat): (bits: nat)
    ensures IsBitLength(n, bits)
  {
    if n == 0 then 0 else
    assert IsBitLength(n / 2, BitLength(n / 2));
    1 + BitLength(n / 2)
  }

  // significantBits: skip the zero bytes, count the rest, then the bits of the first.
  method SignificantBits(value: seq<Byte>) returns (bits: nat)
    ensures IsBitLength(Value(value), bits)
  {
    if |value| == 0 {
      return 0;
    }
    var index := 0;
    while index < |value| && value[index] == 0
      invariant 0 <= index <= |value|
      invariant forall i :: 0 <= i < index ==> value[i] == 0
    {
      index := index + 1;
    }
    LeadingZeros(value, index);
    if index >= |value| {
      return 0;
    }
    ghost var first := value[index];
    var count := 0;
    var leading: nat := value[index];
    while leading != 0
      invariant BitLength(first) == count + BitLength(leading)
      decreases leading
    {
      leading := leading / 2;
      count := count + 1;
    }
    BitLengthOfBytes(value[index..], count);
    bits := (|value| - index - 1) * 8 + count;
  }

  // --- The message ------------------------------------------------------------------

  datatype ServerKeyExchange = ServerKeyExchange(
    namedCurve: Option<Word>,
    primeBits: nat,
    generatorIsTwo: bool,
    signatureAlgorithm: Option<Word>)

  // From TLS 1.2 the message names what signed it; below there is no field to read, and
  // an anonymous exchange has nothing left.
  function SignatureIn(rest: seq<Byte>, version: Word): Option<Word> {
    if version >= VERSION_TLS12 && |rest| >= 2 then Some(BigEndian16(rest[0], rest[1])) else None
  }

  function ParseFiniteField(body: seq<Byte>, version: Word): Taken<ServerKeyExchange> {
    var (prime, s1) :- TakeBlock16(body);
    var (generator, s2) :- TakeBlock16(s1);
    var (_, s3) :- TakeBlock16(s2);
    Taken(ServerKeyExchange(None, BitLength(Value(prime)), generator == [2], SignatureIn(s3, version)), s3)
  }

  function ParseCurve(body: seq<Byte>, version: Word): Taken<ServerKeyExchange> {
    var (curveType, s1) :- TakeUint8(body);
    if curveType != 3 then Taken(ServerKeyExchange(None, 0, false, None), s1) else
    var (namedCurve, s2) :- TakeUint16(s1);
    var (_, s3) :- TakeBlock8(s2);
    Taken(ServerKeyExchange(Some(namedCurve), 0, false, SignatureIn(s3, version)), s3)
  }

  function ParseKeyExchange(body: seq<Byte>, version: Word, finiteField: bool): Option<ServerKeyExchange> {
    var parsed := if finiteField then ParseFiniteField(body, version) else ParseCurve(body, version);
    if parsed.Taken? then Some(parsed.value) else None
  }

  // What a server signs: nothing, or an algorithm followed by the signature.
  datatype Signed = Signed(algorithm: Word, signature: seq<Byte>)

  function PutSigned(signed: Option<Signed>): seq<Byte> {
    if signed.None? then [] else PutUint16(signed.value.algorithm) + signed.value.signature
  }

  function PutFiniteField(p: seq<Byte>, g: seq<Byte>, ys: seq<Byte>, rest: seq<Byte>): seq<Byte>
    requires |p| < 0x1_0000 && |g| < 0x1_0000 && |ys| < 0x1_0000
  {
    PutBlock16(p) + (PutBlock16(g) + (PutBlock16(ys) + rest))
  }

  function PutCurve(curve: Word, point: seq<Byte>, rest: seq<Byte>): seq<Byte>
    requires |point| < 0x100
  {
    [3] + (PutUint16(curve) + (PutBlock8(point) + rest))
  }

  // The signature algorithm of a TLS 1.2 message is read, whatever signature follows;
  // an unsigned one has none; and below TLS 1.2 two bytes there are not taken for one.
  lemma SignatureOf(signed: Option<Signed>, version: Word)
    ensures SignatureIn(PutSigned(signed), version) ==
      if signed.Some? && version >= VERSION_TLS12 then Some(signed.value.algorithm) else None
  {
    if signed.Some? {
      var s := PutSigned(signed);
      assert s[..2] == PutUint16(signed.value.algorithm);
      assert s[0] == s[..2][0] && s[1] == s[..2][1];
    }
  }

  // Every encoded finite-field exchange reports the true size of its prime, however
  // many zero bytes lead it.
  lemma ParseFiniteFieldInverse(
    p: seq<Byte>, g: seq<Byte>, ys: seq<Byte>, signed: Option<Signed>, version: Word)
    requires |p| < 0x1_0000 && |g| < 0x1_0000 && |ys| < 0x1_0000
    ensures var parsed := ParseKeyExchange(PutFiniteField(p, g, ys, PutSigned(signed)), version, true);
      && parsed.Some?
      && parsed.value.namedCurve == None
      && IsBitLength(Value(p), parsed.value.primeBits)
      && (parsed.value.generatorIsTwo <==> g == [2])
      && parsed.value.signatureAlgorithm ==
        if signed.Some? && version >= VERSION_TLS12 then Some(signed.value.algorithm) else None
  {
    var s3 := PutSigned(signed);
    var s2 := PutBlock16(ys) + s3;
    var s1 := PutBlock16(g) + s2;
    TakeBlock16Iff(PutBlock16(p) + s1, p, s1);
    TakeBlock16Iff(s1, g, s2);
    TakeBlock16Iff(s2, ys, s3);
    SignatureOf(signed, version);
  }

  lemma ParseCurveInverse(curve: Word, point: seq<Byte>, signed: Option<Signed>, version: Word)
    requires |point| < 0x100
    ensures ParseKeyExchange(PutCurve(curve, point, PutSigned(signed)), version, false) ==
      Some(ServerKeyExchange(Some(curve), 0, false,
        if signed.Some? && version >= VERSION_TLS12 then Some(signed.value.algorithm) else None))
  {
    var s3 := PutSigned(signed);
    var s2 := PutBlock8(point) + s3;
    var s1 := PutUint16(curve) + s2;
    TakeUint8Iff([3] + s1, 3, s1);
    TakeUint16Iff(s1, curve, s2);
    TakeBlock8Iff(s2, point, s3);
    SignatureOf(signed, version);
  }

  // Conversely a finite-field message that parses is one that was encoded, with at most
  // a signature after it.
  lemma ParseFiniteFieldSound(body: seq<Byte>, version: Word)
    requires ParseKeyExchange(body, version, true).Some?
    ensures exists p, g, ys, rest ::
      && |p| < 0x1_0000 && |g| < 0x1_0000 && |ys| < 0x1_0000
      && body == PutFiniteField(p, g, ys, rest)
      && IsBitLength(Value(p), ParseKeyExchange(body, version, true).value.primeBits)
      && (ParseKeyExchange(body, version, true).value.signatureAlgorithm.Some?
        <==> version >= VERSION_TLS12 && |rest| >= 2)
  {
    var p, s1 := TakeBlock16(body).value, TakeBlock16(body).rest;
    var g, s2 := TakeBlock16(s1).value, TakeBlock16(s1).rest;
    var ys, s3 := TakeBlock16(s2).value, TakeBlock16(s2).rest;
    TakeBlock16Iff(body, p, s1);
    TakeBlock16Iff(s1, g, s2);
    TakeBlock16Iff(s2, ys, s3);
    assert body == PutFiniteField(p, g, ys, s3);
  }

  // The finite-field half of the message.
  method ReadFiniteField(reader: Reader, version: Word) returns (parsed: Option<ServerKeyExchange>)
    modifies reader
    ensures match ParseFiniteField(old(reader.data), version)
            case Taken(exchange, _) => parsed == Some(exchange)
            case Truncated => parsed == None
  {
    var prime := reader.Uint16LengthPrefixed();
    if prime == null {
      return None;
    }
    var primeBytes := prime.Rest();
    var primeBits := SignificantBits(primeBytes);
    BitLengthUnique(Value(primeBytes), primeBits, BitLength(Value(primeBytes)));
    var generator := reader.Uint16LengthPrefixed();
    if generator == null {
      return None;
    }
    var generatorBytes := generator.Rest();
    var generatorIsTwo := |generatorBytes| == 1 && generatorBytes[0] == 2;
    assert generatorIsTwo == (generatorBytes == [2]);
    var ys := reader.Uint16LengthPrefixed();
    if ys == null {
      return None;
    }
    var signature := ReadSignature(reader, version);
    parsed := Some(ServerKeyExchange(None, primeBits, generatorIsTwo, signature));
  }

  // The elliptic curve half.
  method ReadCurve(reader: Reader, version: Word) returns (parsed: Option<ServerKeyExchange>)
    modifies reader
    ensures match ParseCurve(old(reader.data), version)
            case Taken(exchange, _) => parsed == Some(exchange)
            case Truncated => parsed == None
  {
    var curveType := reader.Uint8();
    if curveType.None? {
      return None;
    }
    if curveType.value != 3 {
      return Some(ServerKeyExchange(None, 0, false, None));
    }
    var namedCurve := reader.Uint16();
    if namedCurve.None? {
      return None;
    }
    var point := reader.Uint8LengthPrefixed();
    if point == null {
      return None;
    }
    var signature := ReadSignature(reader, version);
    parsed := Some(ServerKeyExchange(namedCurve, 0, false, signature));
  }

  method ReadSignature(reader: Reader, version: Word) returns (algorithm: Option<Word>)
    modifies reader
    ensures algorithm == SignatureIn(old(reader.data), version)
  {
    algorithm := None;
    var length := reader.Len();
    if version >= VERSION_TLS12 && length >= 2 {
      algorithm := reader.Uint16();
    }
  }

  method ParseServerKeyExchange(body: seq<Byte>, version: Word, finiteField: bool)
    returns (parsed: Option<ServerKeyExchange>)
    ensures parsed == ParseKeyExchange(body, version, finiteField)
  {
    if |body| == 0 {
      return None;
    }
    var reader := new Reader(body);
    if finiteField {
      parsed := ReadFiniteField(reader, version);
    } else {
      parsed := ReadCurve(reader, version);
    }
  }
}
