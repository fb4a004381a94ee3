/** `X-Hub-Signature` header values: how one is read, and which of several is used. */
module Signatures {
  import opened Prelude

  datatype Algorithm = Sha1 | Sha256 | Sha384 | Sha512 {
    function Name(): string {
      match this
      case Sha1 => "sha1"
      case Sha256 => "sha256"
      case Sha384 => "sha384"
      case Sha512 => "sha512"
    }

    function OutputSize(): nat {
      match this
      case Sha1 => 20
      case Sha256 => 32
      case Sha384 => 48
      case Sha512 => 64
    }

    function Discriminant(): nat {
      match this
      case Sha1 => 0
      case Sha256 => 1
      case Sha384 => 2
      case Sha512 => 3
    }
  }

  datatype Signature = Signature(algorithm: Algorithm, digest: seq<Byte>) {
    predicate IsPreferableTo(other: Signature) {
      algorithm.Discriminant() >= other.algorithm.Discriminant()
    }
  }

  datatype Parsed = Ok(signature: Signature) | Malformed | UnknownMethod(name: string)

  function HexDigit(c: char): Option<nat> {
    if '0' <= c <= '9' then Some((c - '0') as int)
    else if 'a' <= c <= 'f' then Some((c - 'a') as int + 10)
    else if 'A' <= c <= 'F' then Some((c - 'A') as int + 10)
    else None
  }

  function HexByte(high: char, low: char): Option<Byte> {
    match (HexDigit(high), HexDigit(low))
    case (Some(h), Some(l)) => assert h < 16 && l < 16; Some(16 * h + l)
    case _ => None
  }

  /** `hex::decode_to_slice` into a slice of `n` bytes. */
  function DecodeHex(hex: string, n: nat): (r: Option<seq<Byte>>)
    ensures r.Some? ==> |r.value| == n && |hex| == 2 * n
  {
    if |hex| != 2 * n then None
    else if n == 0 then Some([])
    else match (HexByte(hex[0], hex[1]), DecodeHex(hex[2..], n - 1))
      case (Some(first), Some(rest)) => Some([first] + rest)
      case _ => None
  }

  /** `memchr`: the position of the first `c`, or the length when there is none. */
  function IndexOf(s: string, c: char): (i: nat)
    ensures i <= |s| && (forall j :: 0 <= j < i ==> s[j] != c) && (i < |s| ==> s[i] == c)
  {
    if s == "" || s[0] == c then 0 else 1 + IndexOf(s[1..], c)
  }

  function Method(name: string): Option<Algorithm> {
    if name == "sha1" then Some(Sha1)
    else if name == "sha256" then Some(Sha256)
    else if name == "sha384" then Some(Sha384)
    else if name == "sha512" then Some(Sha512)
    else None
  }

  function Parse(header: string): Parsed {
    var i := IndexOf(header, '=');
    if i == |header| then Malformed
    else match Method(header[..i])
      case None => UnknownMethod(header[..i])
      case Some(algorithm) =>
        match DecodeHex(header[i + 1..], algorithm.OutputSize())
        case None => Malformed
        case Some(digest) => Ok(Signature(algorithm, digest))
  }

  lemma {:induction false} IndexOfFirst(head: string, c: char, tail: string)
    requires c !in head
    ensures IndexOf(head + [c] + tail, c) == |head|
  {
    var s := head + [c] + tail;
    assert s[|head|] == c && forall j :: 0 <= j < |head| ==> s[j] == head[j];
  }

  lemma {:induction false} MethodIff(name: string, algorithm: Algorithm)
    ensures Method(name) == Some(algorithm) <==> name == algorithm.Name()
  {
  }

  /** The headers that parse: a known method, `=`, and as many hexadecimal digits as its digest takes. */
  lemma {:induction false} ParseIff(header: string, signature: Signature)
    ensures Parse(header) == Ok(signature) <==> IsHeaderOf(header, signature)
  {
    if Parse(header) == Ok(signature) { ParsedIsHeader(header, signature); }
    if IsHeaderOf(header, signature) { HeaderParses(header, signature); }
  }

  lemma {:induction false} ParsedIsHeader(header: string, signature: Signature)
    requires Parse(header) == Ok(signature)
    ensures IsHeaderOf(header, signature)
  {
    var i := IndexOf(header, '=');
    var hex := header[i + 1..];
    MethodIff(header[..i], signature.algorithm);
    assert header == header[..i] + "=" + hex;
  }

  lemma {:induction false} HeaderParses(header: string, signature: Signature)
    requires IsHeaderOf(header, signature)
    ensures Parse(header) == Ok(signature)
  {
    var name := signature.algorithm.Name();
    var hex :| header == name + "=" + hex && DecodeHex(hex, signature.algorithm.OutputSize()) == Some(signature.digest);
    assert '=' !in name;
    IndexOfFirst(name, '=', hex);
    assert header == name + ['='] + hex;
    assert header[..|name|] == name && header[|name| + 1..] == hex;
    MethodIff(name, signature.algorithm);
  }

  ghost predicate IsHeaderOf(header: string, signature: Signature) {
    exists hex :: header == signature.algorithm.Name() + "=" + hex
      && DecodeHex(hex, signature.algorithm.OutputSize()) == Some(signature.digest)
  }

  function EncodeHex(bytes: seq<Byte>): string {
    if bytes == [] then "" else [HexChar(bytes[0] / 16), HexChar(bytes[0] % 16)] + EncodeHex(bytes[1..])
  }

  function HexChar(n: nat): char
    requires n < 16
  {
    if n < 10 then '0' + n as char else 'a' + (n - 10) as char
  }

  lemma {:induction false} HexByteRoundTrip(b: Byte)
    ensures HexByte(HexChar(b / 16), HexChar(b % 16)) == Some(b)
  {
  }

  lemma {:induction false} HexRoundTrip(bytes: seq<Byte>)
    ensures |EncodeHex(bytes)| == 2 * |bytes| && DecodeHex(EncodeHex(bytes), |bytes|) == Some(bytes)
  {
    if bytes != [] {
      HexRoundTrip(bytes[1..]);
      HexByteRoundTrip(bytes[0]);
      var hex := EncodeHex(bytes);
      assert hex[2..] == EncodeHex(bytes[1..]);
      assert hex[0] == HexChar(bytes[0] / 16) && hex[1] == HexChar(bytes[0] % 16);
      assert bytes == [bytes[0]] + bytes[1..];
    }
  }

  /** The header a hub writes for a signature of the right length is read back as that signature. */
  lemma {:induction false} HubHeaderParses(signature: Signature)
    requires |signature.digest| == signature.algorithm.OutputSize()
    ensures Parse(signature.algorithm.Name() + "=" + EncodeHex(signature.digest)) == Ok(signature)
  {
    HexRoundTrip(signature.digest);
    ParseIff(signature.algorithm.Name() + "=" + EncodeHex(signature.digest), signature);
  }

  /** The digits in either case, each at its value. */
  lemma {:induction false} HexDigitIff(c: char, n: nat)
    requires n < 16
    ensures HexDigit(c) == Some(n) <==> c == "0123456789abcdef"[n] || c == "0123456789ABCDEF"[n]
    ensures HexDigit(c).Some? ==> HexDigit(c).value < 16
  {
  }

  /** Text is decoded exactly if it is two digits for each byte, the high one first. */
  lemma {:induction false} DecodeHexIff(hex: string, bytes: seq<Byte>)
    ensures DecodeHex(hex, |bytes|) == Some(bytes) <==>
      && |hex| == 2 * |bytes|
      && forall i :: 0 <= i < |bytes| ==> HexPair(hex[2 * i], hex[2 * i + 1], bytes[i])
  {
    if |hex| == 2 * |bytes| && bytes != [] {
      DecodeHexIff(hex[2..], bytes[1..]);
      HexByteIff(hex[0], hex[1], bytes[0]);
      assert bytes == [bytes[0]] + bytes[1..];
      HexPairsTail(hex, bytes);
    }
  }

  predicate HexPair(high: char, low: char, b: Byte) {
    HexDigit(high) == Some(b / 16) && HexDigit(low) == Some(b % 16)
  }

  lemma {:induction false} HexByteIff(high: char, low: char, b: Byte)
    ensures HexByte(high, low) == Some(b) <==> HexPair(high, low, b)
  {
  }

  lemma {:induction false} HexPairsTail(hex: string, bytes: seq<Byte>)
    requires |hex| == 2 * |bytes| && bytes != []
    ensures (forall i :: 0 <= i < |bytes| ==> HexPair(hex[2 * i], hex[2 * i + 1], bytes[i])) <==>
      && HexPair(hex[0], hex[1], bytes[0])
      && (forall i :: 0 <= i < |bytes| - 1 ==> HexPair(hex[2..][2 * i], hex[2..][2 * i + 1], bytes[1..][i]))
  {
    if HexPair(hex[0], hex[1], bytes[0])
        && forall i :: 0 <= i < |bytes| - 1 ==> HexPair(hex[2..][2 * i], hex[2..][2 * i + 1], bytes[1..][i]) {
      forall i | 0 <= i < |bytes| ensures HexPair(hex[2 * i], hex[2 * i + 1], bytes[i]) {
        if i > 0 { assert HexPair(hex[2..][2 * (i - 1)], hex[2..][2 * (i - 1) + 1], bytes[1..][i - 1]); }
      }
    }
    if forall i :: 0 <= i < |bytes| ==> HexPair(hex[2 * i], hex[2 * i + 1], bytes[i]) {
      forall i | 0 <= i < |bytes| - 1 ensures HexPair(hex[2..][2 * i], hex[2..][2 * i + 1], bytes[1..][i]) {
        assert HexPair(hex[2 * (i + 1)], hex[2 * (i + 1) + 1], bytes[i + 1]);
      }
    }
  }

  /** A method as it is written, and the length of its digest in bytes. */
  predicate IsMethod(name: string, algorithm: Algorithm, size: nat) {
    || (name == "sha1" && algorithm == Sha1 && size == 20)
    || (name == "sha256" && algorithm == Sha256 && size == 32)
    || (name == "sha384" && algorithm == Sha384 && size == 48)
    || (name == "sha512" && algorithm == Sha512 && size == 64)
  }

  lemma {:induction false} KnownMethodParsesIff(name: string, algorithm: Algorithm, size: nat, hex: string, digest: seq<Byte>)
    requires IsMethod(name, algorithm, size)
    ensures Parse(name + "=" + hex) == Ok(Signature(algorithm, digest)) <==> |digest| == size && DecodeHex(hex, size) == Some(digest)
  {
    ParseNamed(name, hex);
  }

  /** Any other method is reported by the name it was given. */
  lemma {:induction false} UnknownMethodIff(name: string, hex: string)
    requires '=' !in name
    ensures Parse(name + "=" + hex) == UnknownMethod(name) <==> name !in {"sha1", "sha256", "sha384", "sha512"}
  {
    ParseNamed(name, hex);
  }

  lemma {:induction false} ParseNamed(name: string, hex: string)
    requires '=' !in name
    ensures Parse(name + "=" + hex) == match Method(name)
      case None => UnknownMethod(name)
      case Some(algorithm) =>
        match DecodeHex(hex, algorithm.OutputSize())
        case None => Malformed
        case Some(digest) => Ok(Signature(algorithm, digest))
  {
    IndexOfFirst(name, '=', hex);
    var header := name + ['='] + hex;
    assert header == name + "=" + hex;
    assert header[..|name|] == name && header[|name| + 1..] == hex;
  }

  /** A method is preferred exactly if its digest is longer. */
  lemma {:induction false} PreferenceIsByStrength(a: Algorithm, b: Algorithm)
    ensures a.Discriminant() < b.Discriminant() <==> a.OutputSize() < b.OutputSize()
    ensures a.Discriminant() == b.Discriminant() <==> a == b
  {
  }

  // ----- Choosing among several headers -----

  /** The discriminants of the headers, where they parse. */
  function Ranks(headers: seq<string>): (ranks: seq<Option<nat>>)
    ensures |ranks| == |headers|
  {
    seq(|headers|, i requires 0 <= i < |headers| =>
      match Parse(headers[i])
      case Ok(signature) => Some(signature.algorithm.Discriminant())
      case _ => None)
  }

  /** `i` is the last of the positions of greatest rank. */
  predicate IsBest(ranks: seq<Option<nat>>, i: nat) {
    && i < |ranks| && ranks[i].Some?
    && forall j :: 0 <= j < |ranks| && ranks[j].Some? ==>
         ranks[j].value <= ranks[i].value && (i < j ==> ranks[j].value < ranks[i].value)
  }

  lemma {:induction false} BestIsUnique(ranks: seq<Option<nat>>, i: nat, k: nat)
    requires IsBest(ranks, i) && IsBest(ranks, k)
    ensures i == k
  {
  }

  /** The last of the parsed values whose discriminant is greatest. */
  ghost predicate IsArgmax(headers: seq<string>, r: Option<Signature>) {
    match r
    case None => forall j :: 0 <= j < |headers| ==> !Parse(headers[j]).Ok?
    case Some(signature) => exists i: nat :: IsBest(Ranks(headers), i) && Parse(headers[i]) == Ok(signature)
  }

  lemma {:induction false} ArgmaxIsUnique(headers: seq<string>, a: Option<Signature>, b: Option<Signature>)
    requires IsArgmax(headers, a) && IsArgmax(headers, b)
    ensures a == b
  {
    var ranks := Ranks(headers);
    if a.Some? && b.Some? {
      var i: nat :| IsBest(ranks, i) && Parse(headers[i]) == Ok(a.value);
      var k: nat :| IsBest(ranks, k) && Parse(headers[k]) == Ok(b.value);
      BestIsUnique(ranks, i, k);
    }
  }

  /** Of several signatures it is one whose digest is longest, and of those the one given last. */
  lemma {:induction false} ArgmaxIff(headers: seq<string>, signature: Signature)
    ensures IsArgmax(headers, Some(signature)) <==>
      exists i: nat :: i < |headers| && Parse(headers[i]) == Ok(signature) && Outranks(headers, i, signature)
  {
    var ranks := Ranks(headers);
    forall i: nat | i < |headers| && Parse(headers[i]) == Ok(signature)
      ensures IsBest(ranks, i) <==> Outranks(headers, i, signature)
    {
      OutranksIff(headers, i, signature);
    }
  }

  predicate Outranks(headers: seq<string>, i: nat, signature: Signature) {
    forall j :: 0 <= j < |headers| && Parse(headers[j]).Ok? ==>
      var other := Parse(headers[j]).signature.algorithm.OutputSize();
      other <= signature.algorithm.OutputSize() && (i < j ==> other < signature.algorithm.OutputSize())
  }

  lemma {:induction false} OutranksIff(headers: seq<string>, i: nat, signature: Signature)
    requires i < |headers| && Parse(headers[i]) == Ok(signature)
    ensures IsBest(Ranks(headers), i) <==> Outranks(headers, i, signature)
  {
    var ranks := Ranks(headers);
    forall j | 0 <= j < |headers| && ranks[j].Some?
      ensures var other := Parse(headers[j]).signature.algorithm;
        (ranks[j].value < ranks[i].value <==> other.OutputSize() < signature.algorithm.OutputSize())
        && (ranks[j].value <= ranks[i].value <==> other.OutputSize() <= signature.algorithm.OutputSize())
    {
      PreferenceIsByStrength(Parse(headers[j]).signature.algorithm, signature.algorithm);
      PreferenceIsByStrength(signature.algorithm, Parse(headers[j]).signature.algorithm);
    }
  }

  /** The loop over all `X-Hub-Signature` values; the ones that do not parse are skipped. */
  method SelectSignature(headers: seq<string>) returns (r: Option<Signature>)
    ensures IsArgmax(headers, r)
  {
    r := None;
    var n := 0;
    ghost var at, ranks := 0, Ranks(headers);
    while n < |headers|
      invariant 0 <= n <= |headers|
      invariant r.None? ==> forall j :: 0 <= j < n ==> !Parse(headers[j]).Ok?
      invariant r.Some? ==> IsBest(ranks[..n], at) && Parse(headers[at]) == Ok(r.value)
    {
      assert ranks[..n + 1] == ranks[..n] + [ranks[n]];
      match Parse(headers[n]) {
        case Ok(signature) =>
          if r.Some? {
            if signature.IsPreferableTo(r.value) {
              r, at := Some(signature), n;
            }
          } else {
            r, at := Some(signature), n;
          }
        case Malformed =>
        case UnknownMethod(_) =>
      }
      n := n + 1;
    }
    assert ranks[..n] == ranks;
  }
}
