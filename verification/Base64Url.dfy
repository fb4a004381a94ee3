/** base64url without padding: RFC 4648, section 5, as the `URL_SAFE_NO_PAD` engine does it. */
module Base64Url {
  import opened Prelude

  type Sextet = x: int | 0 <= x < 64

  function EncodeSextet(n: Sextet): char {
    if n < 26 then 'A' + n as char
    else if n < 52 then 'a' + (n - 26) as char
    else if n < 62 then '0' + (n - 52) as char
    else if n == 62 then '-' else '_'
  }

  function DecodeSextet(c: char): Option<Sextet> {
    if 'A' <= c <= 'Z' then Some((c - 'A') as int)
    else if 'a' <= c <= 'z' then Some((c - 'a') as int + 26)
    else if '0' <= c <= '9' then Some((c - '0') as int + 52)
    else if c == '-' then Some(62)
    else if c == '_' then Some(63) else None
  }

  lemma {:induction false} SextetRoundTrip(n: Sextet)
    ensures DecodeSextet(EncodeSextet(n)) == Some(n)
  {
  }

  lemma {:induction false} SextetCanonical(c: char)
    ensures DecodeSextet(c).Some? ==> EncodeSextet(DecodeSextet(c).value) == c
  {
  }

  function Sextets3(a: Byte, b: Byte, c: Byte): (Sextet, Sextet, Sextet, Sextet) {
    (a / 4, a % 4 * 16 + b / 16, b % 16 * 4 + c / 64, c % 64)
  }

  function Bytes4(p: Sextet, q: Sextet, r: Sextet, s: Sextet): (Byte, Byte, Byte) {
    (p * 4 + q / 16, q % 16 * 16 + r / 4, r % 4 * 64 + s)
  }

  lemma {:induction false} GroupRoundTrip(a: Byte, b: Byte, c: Byte)
    ensures var (p, q, r, s) := Sextets3(a, b, c); Bytes4(p, q, r, s) == (a, b, c)
  {
    var (p, q, r, s) := Sextets3(a, b, c);
    assert q / 16 == a % 4 && q % 16 == b / 16;
    assert r / 4 == b % 16 && r % 4 == c / 64;
  }

  lemma {:induction false} GroupCanonical(p: Sextet, q: Sextet, r: Sextet, s: Sextet)
    ensures var (a, b, c) := Bytes4(p, q, r, s); Sextets3(a, b, c) == (p, q, r, s)
  {
    var (a, b, c) := Bytes4(p, q, r, s);
    assert a / 4 == p && a % 4 == q / 16;
    assert b / 16 == q % 16 && b % 16 == r / 4;
    assert c / 64 == r % 4 && c % 64 == s;
  }

  function Encode(bytes: seq<Byte>): string {
    if |bytes| == 0 then ""
    else if |bytes| == 1 then
      var (p, q, _, _) := Sextets3(bytes[0], 0, 0);
      [EncodeSextet(p), EncodeSextet(q)]
    else if |bytes| == 2 then
      var (p, q, r, _) := Sextets3(bytes[0], bytes[1], 0);
      [EncodeSextet(p), EncodeSextet(q), EncodeSextet(r)]
    else
      var (p, q, r, s) := Sextets3(bytes[0], bytes[1], bytes[2]);
      [EncodeSextet(p), EncodeSextet(q), EncodeSextet(r), EncodeSextet(s)] + Encode(bytes[3..])
  }

  /** A group of two or three characters must leave no stray low bits; one character alone is no group. */
  function DecodeGroup(s: string): Option<seq<Byte>>
    requires |s| <= 4
  {
    if |s| == 0 then Some([])
    else if |s| == 1 || (exists i :: 0 <= i < |s| && DecodeSextet(s[i]).None?) then None
    else
      var p, q := DecodeSextet(s[0]).value, DecodeSextet(s[1]).value;
      var r := if |s| > 2 then DecodeSextet(s[2]).value else 0;
      var t := if |s| > 3 then DecodeSextet(s[3]).value else 0;
      var (a, b, c) := Bytes4(p, q, r, t);
      if |s| == 4 then Some([a, b, c])
      else if |s| == 3 then (if c == 0 then Some([a, b]) else None)
      else if b == 0 && c == 0 then Some([a]) else None
  }

  function Decode(s: string): Option<seq<Byte>> {
    if |s| <= 4 then DecodeGroup(s)
    else
      match (DecodeGroup(s[..4]), Decode(s[4..]))
      case (Some(head), Some(tail)) => Some(head + tail)
      case _ => None
  }

  /** Bytes from a group, padded with zeroes to three. */
  lemma {:induction false} TailRoundTrip(a: Byte, b: Byte)
    ensures var (p, q, r, s) := Sextets3(a, b, 0); s == 0 && Bytes4(p, q, r, 0) == (a, b, 0)
    ensures var (p, q, r, s) := Sextets3(a, 0, 0); r == 0 && s == 0 && Bytes4(p, q, 0, 0) == (a, 0, 0)
  {
    GroupRoundTrip(a, b, 0);
    GroupRoundTrip(a, 0, 0);
  }

  lemma {:induction false} DecodeGroupOf3(a: Byte, b: Byte, c: Byte)
    ensures var (p, q, r, s) := Sextets3(a, b, c);
      DecodeGroup([EncodeSextet(p), EncodeSextet(q), EncodeSextet(r), EncodeSextet(s)]) == Some([a, b, c])
  {
    var (p, q, r, s) := Sextets3(a, b, c);
    SextetRoundTrip(p); SextetRoundTrip(q); SextetRoundTrip(r); SextetRoundTrip(s);
    GroupRoundTrip(a, b, c);
  }

  lemma {:induction false} DecodeGroupOf2(a: Byte, b: Byte)
    ensures var (p, q, r, _) := Sextets3(a, b, 0);
      DecodeGroup([EncodeSextet(p), EncodeSextet(q), EncodeSextet(r)]) == Some([a, b])
    ensures var (p, q, _, _) := Sextets3(a, 0, 0);
      DecodeGroup([EncodeSextet(p), EncodeSextet(q)]) == Some([a])
  {
    TailRoundTrip(a, b);
    var (p, q, r, _) := Sextets3(a, b, 0);
    SextetRoundTrip(p); SextetRoundTrip(q); SextetRoundTrip(r);
    var (p', q', _, _) := Sextets3(a, 0, 0);
    SextetRoundTrip(p'); SextetRoundTrip(q');
  }

  /** Every byte string survives encoding and decoding. */
  lemma {:induction false} DecodeEncode(bytes: seq<Byte>)
    ensures Decode(Encode(bytes)) == Some(bytes)
  {
    if |bytes| == 0 {
    } else if |bytes| == 1 {
      DecodeGroupOf2(bytes[0], 0);
      assert bytes == [bytes[0]];
    } else if |bytes| == 2 {
      DecodeGroupOf2(bytes[0], bytes[1]);
      assert bytes == [bytes[0], bytes[1]];
    } else {
      var head, tail := [bytes[0], bytes[1], bytes[2]], bytes[3..];
      assert bytes == head + tail;
      DecodeGroupOf3(bytes[0], bytes[1], bytes[2]);
      DecodeEncode(tail);
      var (p, q, r, s) := Sextets3(bytes[0], bytes[1], bytes[2]);
      var quad := [EncodeSextet(p), EncodeSextet(q), EncodeSextet(r), EncodeSextet(s)];
      var text := Encode(bytes);
      assert text == quad + Encode(tail);
      assert text[..4] == quad && text[4..] == Encode(tail);
      if |text| <= 4 {
        assert Encode(tail) == "" && text == quad;
        assert tail == [] && bytes == head;
      }
    }
  }

  lemma {:induction false} EncodedLength(bytes: seq<Byte>)
    ensures |Encode(bytes)| == (4 * |bytes| + 2) / 3
  {
    if |bytes| >= 3 {
      EncodedLength(bytes[3..]);
    }
  }

  lemma {:induction false} DecodedGroupLength(s: string)
    requires |s| <= 4
    ensures DecodeGroup(s).Some? ==> |DecodeGroup(s).value| == 3 * |s| / 4
  {
  }

  /** What is decoded has three bytes for four characters, rounded down. */
  lemma {:induction false} DecodedLength(s: string)
    ensures Decode(s).Some? ==> |Decode(s).value| == 3 * |s| / 4
  {
    if |s| <= 4 {
      DecodedGroupLength(s);
    } else {
      DecodedGroupLength(s[..4]);
      DecodedLength(s[4..]);
    }
  }

  lemma {:induction false} EncodeGroupCanonical(s: string)
    requires |s| <= 4 && DecodeGroup(s).Some?
    ensures Encode(DecodeGroup(s).value) == s
  {
    if |s| > 0 {
      var p, q := DecodeSextet(s[0]).value, DecodeSextet(s[1]).value;
      var r := if |s| > 2 then DecodeSextet(s[2]).value else 0;
      var t := if |s| > 3 then DecodeSextet(s[3]).value else 0;
      GroupCanonical(p, q, r, t);
      SextetCanonical(s[0]); SextetCanonical(s[1]);
      if |s| > 2 { SextetCanonical(s[2]); }
      if |s| > 3 { SextetCanonical(s[3]); }
      var (a, b, c) := Bytes4(p, q, r, t);
      if |s| == 4 { assert Encode([a, b, c]) == [s[0], s[1], s[2], s[3]] + Encode([a, b, c][3..]); }
    }
  }

  /** A text that decodes at all is the one text of its bytes. */
  lemma {:induction false} EncodeDecode(s: string)
    requires Decode(s).Some?
    ensures Encode(Decode(s).value) == s
  {
    if |s| <= 4 {
      EncodeGroupCanonical(s);
    } else {
      EncodeDecode(s[4..]);
      EncodeGroupCanonical(s[..4]);
      DecodedGroupLength(s[..4]);
      var head, tail := DecodeGroup(s[..4]).value, Decode(s[4..]).value;
      var bytes := head + tail;
      assert bytes[3..] == tail && bytes[0] == head[0] && bytes[1] == head[1] && bytes[2] == head[2];
      assert Encode(head) == Encode(bytes)[..4] by { assert Encode(head[3..]) == ""; }
      assert s == s[..4] + s[4..];
    }
  }

  // ----- As the RFC says it -----

  /** The alphabet of section 5 of RFC 4648, in order. */
  const ALPHABET: string := UPPER + LOWER + OTHERS
  const UPPER: string := "ABCDEFGHIJKLMNOPQRSTUVWXYZ"
  const LOWER: string := "abcdefghijklmnopqrstuvwxyz"
  const OTHERS: string := "0123456789-_"

  lemma {:induction false} LettersInOrder(n: nat)
    requires n < 26
    ensures |UPPER| == 26 && UPPER[n] as int == 'A' as int + n
  {
  }

  lemma {:induction false} SmallLettersInOrder(n: nat)
    requires n < 26
    ensures |LOWER| == 26 && LOWER[n] as int == 'a' as int + n
  {
  }

  lemma {:induction false} OthersInOrder(n: nat)
    requires n < 12
    ensures |OTHERS| == 12 && OTHERS[n] == if n < 10 then '0' + n as char else if n == 10 then '-' else '_'
  {
  }

  lemma {:induction false} SextetIsInAlphabet(n: Sextet)
    ensures |ALPHABET| == 64 && EncodeSextet(n) == ALPHABET[n]
  {
    LettersInOrder(0);
    SmallLettersInOrder(0);
    OthersInOrder(0);
    if n < 26 {
      LettersInOrder(n);
      assert ALPHABET[n] == UPPER[n];
    } else if n < 52 {
      SmallLettersInOrder(n - 26);
      assert ALPHABET[n] == LOWER[n - 26];
    } else {
      OthersInOrder(n - 52);
      assert ALPHABET[n] == OTHERS[n - 52];
    }
  }

  /** A character is decoded to its place in the alphabet, and no other character is decoded. */
  lemma {:induction false} SextetIff(c: char, n: Sextet)
    ensures |ALPHABET| == 64 && (DecodeSextet(c) == Some(n) <==> c == ALPHABET[n])
  {
    SextetIsInAlphabet(n);
    SextetRoundTrip(n);
    SextetCanonical(c);
  }

  function ByteAt(bytes: seq<Byte>, i: nat): Byte {
    if i < |bytes| then bytes[i] else 0
  }

  function SextetAt(text: string, i: nat): Sextet {
    if i < |text| && DecodeSextet(text[i]).Some? then DecodeSextet(text[i]).value else 0
  }

  /** Three bytes from position `3 * g`, the first one most significant, with zeroes past the end. */
  function BytesValue(bytes: seq<Byte>, g: nat): nat {
    0x10000 * ByteAt(bytes, 3 * g) + 0x100 * ByteAt(bytes, 3 * g + 1) + ByteAt(bytes, 3 * g + 2)
  }

  /** Four characters from position `4 * g`, likewise. */
  function TextValue(text: string, g: nat): nat {
    0x40000 * SextetAt(text, 4 * g) + 0x1000 * SextetAt(text, 4 * g + 1) + 64 * SextetAt(text, 4 * g + 2) + SextetAt(text, 4 * g + 3)
  }

  lemma {:induction false} SextetsAreBits(a: Byte, b: Byte, c: Byte)
    ensures var (p, q, r, s) := Sextets3(a, b, c);
      0x40000 * p + 0x1000 * q + 64 * r + s == 0x10000 * a + 0x100 * b + c
  {
  }

  /** Each four characters spell the same 24 bits as the three bytes they stand for. */
  lemma {:induction false} EncodeIsBitwise(bytes: seq<Byte>, g: nat)
    ensures TextValue(Encode(bytes), g) == BytesValue(bytes, g)
    decreases g
  {
    if g == 0 || |bytes| < 3 {
      EncodedLength(bytes);
      if g == 0 { FirstGroupIsBitwise(bytes); }
    } else {
      EncodeIsBitwise(bytes[3..], g - 1);
      ValuesOfTail(bytes, g);
    }
  }

  lemma {:induction false} ValuesOfTail(bytes: seq<Byte>, g: nat)
    requires g > 0 && |bytes| >= 3
    ensures BytesValue(bytes, g) == BytesValue(bytes[3..], g - 1)
    ensures TextValue(Encode(bytes), g) == TextValue(Encode(bytes[3..]), g - 1)
  {
    var (p, q, r, s) := Sextets3(bytes[0], bytes[1], bytes[2]);
    TextValueOfTail([EncodeSextet(p), EncodeSextet(q), EncodeSextet(r), EncodeSextet(s)], Encode(bytes[3..]), g);
  }

  lemma {:induction false} TextValueOfTail(head: string, tail: string, g: nat)
    requires |head| == 4 && g > 0
    ensures TextValue(head + tail, g) == TextValue(tail, g - 1)
  {
  }

  /** A group of `n` characters that stand for the given sextets, the missing ones being zero. */
  predicate Spells(text: string, n: nat, p: Sextet, q: Sextet, r: Sextet, t: Sextet) {
    && 2 <= n <= 4 && n <= |text| && (n < 4 ==> |text| == n)
    && text[0] == EncodeSextet(p) && text[1] == EncodeSextet(q)
    && (if n > 2 then text[2] == EncodeSextet(r) else r == 0)
    && (if n > 3 then text[3] == EncodeSextet(t) else t == 0)
  }

  lemma {:induction false} SpelledValue(text: string, n: nat, p: Sextet, q: Sextet, r: Sextet, t: Sextet)
    requires Spells(text, n, p, q, r, t)
    ensures TextValue(text, 0) == 0x40000 * p + 0x1000 * q + 64 * r + t
  {
    SextetRoundTrip(p);
    SextetRoundTrip(q);
    SextetRoundTrip(r);
    SextetRoundTrip(t);
  }

  lemma {:induction false} FirstGroupSpells(bytes: seq<Byte>)
    requires bytes != []
    ensures var (p, q, r, t) := Sextets3(ByteAt(bytes, 0), ByteAt(bytes, 1), ByteAt(bytes, 2));
      Spells(Encode(bytes), if |bytes| < 3 then |bytes| + 1 else 4, p, q, r, t)
  {
    TailRoundTrip(bytes[0], ByteAt(bytes, 1));
  }

  lemma {:induction false} FirstGroupIsBitwise(bytes: seq<Byte>)
    ensures TextValue(Encode(bytes), 0) == BytesValue(bytes, 0)
  {
    if bytes != [] {
      var (a, b, c) := (ByteAt(bytes, 0), ByteAt(bytes, 1), ByteAt(bytes, 2));
      var (p, q, r, t) := Sextets3(a, b, c);
      SextetsAreBits(a, b, c);
      FirstGroupSpells(bytes);
      SpelledValue(Encode(bytes), if |bytes| < 3 then |bytes| + 1 else 4, p, q, r, t);
    }
  }
}
