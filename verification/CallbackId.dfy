/** The id in a callback URL: base64url over the little-endian bytes of a `u64`, cut short. */
module CallbackId {
  import opened Prelude
  import Base64Url

  /** `u64::to_le_bytes`, for an integer of `n` bytes. */
  function ToLeBytes(x: nat, n: nat): (bytes: seq<Byte>)
    ensures |bytes| == n
  {
    if n == 0 then [] else [x % 256] + ToLeBytes(x / 256, n - 1)
  }

  function FromLeBytes(bytes: seq<Byte>): nat {
    if bytes == [] then 0 else bytes[0] + 256 * FromLeBytes(bytes[1..])
  }

  function Pow256(n: nat): nat {
    if n == 0 then 1 else 256 * Pow256(n - 1)
  }

  function Zeroes(n: nat): seq<Byte> {
    seq(n, i => 0)
  }

  /** `memrchr`: the position of the last zero byte. */
  function LastZero(bytes: seq<Byte>): (r: Option<nat>)
    ensures match r
      case None => forall i :: 0 <= i < |bytes| ==> bytes[i] != 0
      case Some(end) => end < |bytes| && bytes[end] == 0 && forall i :: end < i < |bytes| ==> bytes[i] != 0
  {
    if bytes == [] then None
    else if bytes[|bytes| - 1] == 0 then Some(|bytes| - 1)
    else LastZero(bytes[..|bytes| - 1])
  }

  /** Cuts at the last zero byte, which is the most significant byte only when that is zero. */
  function Encode(id: seq<Byte>): string {
    Base64Url.Encode(id[..Cut(id)])
  }

  function Cut(id: seq<Byte>): (end: nat)
    ensures end <= |id|
  {
    match LastZero(id)
    case Some(end) => end
    case None => |id|
  }

  function EncodeId(id: U64): string {
    Encode(ToLeBytes(id, 8))
  }

  /** What `decode` computes, with its buffer read as a value. */
  function DecodeId(id: string): Option<U64> {
    if |id| > 11 then None else FromDecoded(Base64Url.Decode(id))
  }

  function FromDecoded(decoded: Option<seq<Byte>>): Option<U64> {
    match decoded
    case None => None
    case Some(bytes) => if |bytes| > 8 then None else Some(FromLe8Bytes(bytes + Zeroes(8 - |bytes|)))
  }

  /** `u64::from_le_bytes`. */
  function FromLe8Bytes(bytes: seq<Byte>): U64
    requires |bytes| == 8
  {
    FromLeBytesBound(bytes);
    Pow256Values();
    FromLeBytes(bytes)
  }

  lemma {:induction false} FromLeBytesBound(bytes: seq<Byte>)
    ensures FromLeBytes(bytes) < Pow256(|bytes|)
  {
    if bytes != [] { FromLeBytesBound(bytes[1..]); }
  }

  method WriteGroup(buf: array<Byte>, at: nat, group: seq<Byte>)
    requires at + |group| <= buf.Length
    modifies buf
    ensures buf[..at + |group|] == old(buf[..at]) + group
    ensures buf[at + |group|..] == old(buf[at + |group|..])
  {
    var j := 0;
    while j < |group|
      invariant 0 <= j <= |group|
      invariant buf[..at] == old(buf[..at])
      invariant buf[at..at + j] == group[..j]
      invariant buf[at + |group|..] == old(buf[at + |group|..])
    {
      buf[at + j] := group[j];
      j := j + 1;
    }
    assert buf[..at + |group|] == buf[..at] + buf[at..at + |group|];
  }

  /** Decodes all groups but the last; stops with `ok` unset at one that is not valid. */
  method DecodeQuads(text: string, buf: array<Byte>) returns (i: nat, k: nat, ok: bool)
    requires (|text| + 3) / 4 * 3 <= buf.Length
    modifies buf
    ensures !ok ==> Base64Url.Decode(text).None?
    ensures ok ==> i <= |text| <= i + 4 && 4 * k == 3 * i && k <= buf.Length
    ensures ok ==> buf[k..] == old(buf[k..])
    ensures ok ==> Base64Url.Decode(text) == Joined(buf[..k], Base64Url.Decode(text[i..]))
  {
    i, k, ok := 0, 0, true;
    assert text[0..] == text && buf[..0] == [];
    JoinedEmpty(Base64Url.Decode(text));
    while i + 4 < |text|
      invariant i <= |text| && 4 * k == 3 * i && k <= buf.Length
      invariant buf[k..] == old(buf[k..])
      invariant Base64Url.Decode(text) == Joined(buf[..k], Base64Url.Decode(text[i..]))
    {
      ok := DecodeQuad(text, i, buf, k);
      if !ok {
        return;
      }
      i, k := i + 4, k + 3;
    }
  }

  lemma {:induction false} RoomForGroup(n: nat, i: nat, k: nat)
    requires i < n && 4 * k == 3 * i
    ensures k + 3 <= (n + 3) / 4 * 3
  {
    var groups := (n + 3) / 4;
    assert n <= 4 * groups;
    assert 4 * k + 12 <= 12 * groups;
  }

  method DecodeQuad(text: string, i: nat, buf: array<Byte>, k: nat) returns (ok: bool)
    requires i + 4 < |text| && 4 * k == 3 * i && (|text| + 3) / 4 * 3 <= buf.Length
    modifies buf
    ensures k + 3 <= buf.Length
    ensures !ok ==> Base64Url.Decode(text[i..]).None?
    ensures ok ==> buf[k + 3..] == old(buf[k + 3..])
    ensures ok ==>
      Joined(buf[..k + 3], Base64Url.Decode(text[i + 4..])) == old(Joined(buf[..k], Base64Url.Decode(text[i..])))
  {
    RoomForGroup(|text|, i, k);
    DecodeStep(text, i, buf[..k]);
    var group := Base64Url.DecodeGroup(text[i..i + 4]);
    ok := group.Some?;
    if ok {
      WriteGroup(buf, k, group.value);
    }
  }

  /** What decoding into a buffer leaves in it: it has to hold whole groups, even if the last is short. */
  ghost predicate Slices(length: nat, decoded: Option<seq<Byte>>, before: seq<Byte>, after: seq<Byte>, n: Option<nat>) {
    if (length + 3) / 4 * 3 > |before| then n.None? && after == before
    else match decoded
      case None => n.None?
      case Some(bytes) =>
        n == Some(|bytes|) && |bytes| <= |after| == |before| && after[..|bytes|] == bytes && after[|bytes|..] == before[|bytes|..]
  }

  /** `Engine::decode_slice`: fills the front of `buf`, group by group. */
  method DecodeSlice(text: string, buf: array<Byte>) returns (n: Option<nat>)
    modifies buf
    ensures Slices(|text|, Base64Url.Decode(text), old(buf[..]), buf[..], n)
  {
    if (|text| + 3) / 4 * 3 > buf.Length {
      return None;
    }
    var i, k, ok := DecodeQuads(text, buf);
    if !ok {
      return None;
    }
    LastGroupFits(text, i, k);
    n := WriteLast(buf, k, Base64Url.DecodeGroup(text[i..]));
  }

  method WriteLast(buf: array<Byte>, k: nat, last: Option<seq<Byte>>) returns (n: Option<nat>)
    requires k <= buf.Length && (last.Some? ==> k + |last.value| <= buf.Length)
    modifies buf
    ensures match Joined(old(buf[..k]), last)
      case None => n.None?
      case Some(bytes) =>
        n == Some(|bytes|) && |bytes| <= buf.Length && buf[..|bytes|] == bytes && buf[|bytes|..] == old(buf[|bytes|..])
  {
    if last.None? {
      return None;
    }
    WriteGroup(buf, k, last.value);
    n := Some(k + |last.value|);
  }

  lemma {:induction false} LastGroupFits(text: string, i: nat, k: nat)
    requires i <= |text| <= i + 4 && 4 * k == 3 * i
    ensures var last := Base64Url.DecodeGroup(text[i..]);
      && Base64Url.Decode(text[i..]) == last
      && (last.Some? ==> k + |last.value| <= (|text| + 3) / 4 * 3)
  {
    Base64Url.DecodedGroupLength(text[i..]);
    if i < |text| {
      RoomForGroup(|text|, i, k);
    } else {
      assert text[i..] == "";
    }
  }

  function Joined(head: seq<Byte>, tail: Option<seq<Byte>>): Option<seq<Byte>> {
    match tail
    case None => None
    case Some(bytes) => Some(head + bytes)
  }

  lemma {:induction false} JoinedEmpty(tail: Option<seq<Byte>>)
    ensures Joined([], tail) == tail
  {
    if tail.Some? { assert [] + tail.value == tail.value; }
  }

  lemma {:induction false} JoinedTwice(a: seq<Byte>, b: seq<Byte>, tail: Option<seq<Byte>>)
    ensures Joined(a, Joined(b, tail)) == Joined(a + b, tail)
  {
    if tail.Some? { assert a + (b + tail.value) == a + b + tail.value; }
  }

  /** With `head` decoded from what precedes position `i`, one more group. */
  lemma {:induction false} DecodeStep(text: string, i: nat, head: seq<Byte>)
    requires i + 4 < |text|
    ensures var group := Base64Url.DecodeGroup(text[i..i + 4]);
      && (group.None? ==> Base64Url.Decode(text[i..]).None?)
      && (group.Some? ==> |group.value| == 3)
      && (group.Some? ==> Joined(head, Base64Url.Decode(text[i..])) == Joined(head + group.value, Base64Url.Decode(text[i + 4..])))
  {
    var group := Base64Url.DecodeGroup(text[i..i + 4]);
    assert text[i..][..4] == text[i..i + 4] && text[i..][4..] == text[i + 4..];
    Base64Url.DecodedGroupLength(text[i..i + 4]);
    if group.Some? {
      assert Base64Url.Decode(text[i..]) == Joined(group.value, Base64Url.Decode(text[i + 4..]));
      JoinedTwice(head, group.value, Base64Url.Decode(text[i + 4..]));
    }
  }

  /** `decode`, with its nine-byte buffer. The buffer is never too short and the ninth byte is never filled. */
  method Decode(id: string) returns (r: Option<U64>)
    ensures r == DecodeId(id)
  {
    if |id| > 11 {
      return None;
    }
    var buf := new Byte[9](_ => 0);
    assert buf[..] == Zeroes(9);
    var n := DecodeSlice(id, buf);
    Base64Url.DecodedLength(id);
    SlicedId(|id|, Base64Url.Decode(id), buf[..], n);
    if n.None? {
      return None;
    }
    assert buf[..8] == buf[..][..8];
    r := Some(FromLe8Bytes(buf[..8]));
  }

  lemma {:induction false} PaddedWithZeroes(buf: seq<Byte>, bytes: seq<Byte>)
    requires |bytes| <= 8 && |buf| == 9 && buf[..|bytes|] == bytes
    requires buf[|bytes|..] == Zeroes(9)[|bytes|..]
    ensures buf[..8] == bytes + Zeroes(8 - |bytes|)
  {
    assert forall i :: 0 <= i < |bytes| ==> buf[i] == buf[..|bytes|][i];
    assert forall i :: |bytes| <= i < 9 ==> buf[i] == buf[|bytes|..][i - |bytes|];
  }

  lemma {:induction false} SlicedId(length: nat, decoded: Option<seq<Byte>>, buf: seq<Byte>, n: Option<nat>)
    requires length <= 11 && |buf| == 9 && Slices(length, decoded, Zeroes(9), buf, n)
    requires decoded.Some? ==> |decoded.value| == 3 * length / 4
    ensures FromDecoded(decoded) == if n.None? then None else Some(FromLe8Bytes(buf[..8]))
  {
    if n.Some? {
      PaddedWithZeroes(buf, decoded.value);
    }
  }

  /** For no text of at most eleven characters are more than eight bytes decoded. */
  lemma {:induction false} AtMostEightBytes(id: string)
    requires |id| <= 11 && Base64Url.Decode(id).Some?
    ensures |Base64Url.Decode(id).value| <= 8
    ensures DecodeId(id).Some?
  {
    Base64Url.DecodedLength(id);
  }

  /** The bytes are little-endian: each one counts 256 times as much as the one before it. */
  lemma {:induction false} LittleEndian(bytes: seq<Byte>, top: Byte)
    ensures FromLeBytes(bytes + [top]) == FromLeBytes(bytes) + top * Pow256(|bytes|)
  {
    if bytes == [] {
      assert [] + [top] == [top];
      assert FromLeBytes([top][1..]) == 0;
    } else {
      assert (bytes + [top])[1..] == bytes[1..] + [top];
      LittleEndian(bytes[1..], top);
    }
  }

  lemma {:induction false} PaddedValue(bytes: seq<Byte>, n: nat)
    ensures FromLeBytes(bytes + Zeroes(n)) == FromLeBytes(bytes)
  {
    if n == 0 {
      assert bytes + Zeroes(0) == bytes;
    } else {
      assert bytes + Zeroes(n) == bytes + Zeroes(n - 1) + [0];
      PaddedValue(bytes, n - 1);
      LittleEndian(bytes + Zeroes(n - 1), 0);
    }
  }

  ghost predicate Spells(text: string, id: nat, bytes: seq<Byte>) {
    |bytes| <= 8 && text == Base64Url.Encode(bytes) && FromLeBytes(bytes) == id
  }

  /** For every text: it decodes to an id exactly if it is the base64url of at most eight bytes of that value. */
  lemma {:induction false} DecodeIdIff(text: string, id: U64)
    ensures DecodeId(text) == Some(id) <==> exists bytes: seq<Byte> :: Spells(text, id, bytes)
  {
    if DecodeId(text) == Some(id) {
      DecodedSpells(text, id, Base64Url.Decode(text));
    }
    if bytes: seq<Byte> :| Spells(text, id, bytes) {
      SpelledDecodes(text, id, bytes);
    }
  }

  lemma {:induction false} SpelledDecodes(text: string, id: U64, bytes: seq<Byte>)
    requires Spells(text, id, bytes)
    ensures DecodeId(text) == Some(id)
  {
    DecodeEncodedBytes(bytes);
    PaddedValue(bytes, 8 - |bytes|);
  }

  lemma {:induction false} DecodedSpells(text: string, id: U64, decoded: Option<seq<Byte>>)
    requires Base64Url.Decode(text) == decoded && FromDecoded(decoded) == Some(id)
    ensures decoded.Some? && Spells(text, id, decoded.value)
  {
    Base64Url.EncodeDecode(text);
    PaddedValue(decoded.value, 8 - |decoded.value|);
  }

  // ----- Which ids survive -----

  lemma {:induction false} LeBytesRoundTrip(x: nat, n: nat)
    requires x < Pow256(n)
    ensures FromLeBytes(ToLeBytes(x, n)) == x
  {
    if n > 0 {
      LeBytesRoundTrip(x / 256, n - 1);
      assert ToLeBytes(x, n)[1..] == ToLeBytes(x / 256, n - 1);
    }
  }

  /** Dropping all but the first `k` bytes is taking the remainder by 256 to the `k`. */
  lemma {:induction false} CutIsRemainder(x: nat, n: nat, k: nat)
    requires k <= n
    ensures Pow256(k) > 0 && FromLeBytes(ToLeBytes(x, n)[..k] + Zeroes(n - k)) == x % Pow256(k)
  {
    var cut := ToLeBytes(x, n)[..k] + Zeroes(n - k);
    if k == 0 {
      assert cut == Zeroes(n);
      ZeroValue(n);
    } else {
      assert cut[1..] == ToLeBytes(x / 256, n - 1)[..k - 1] + Zeroes((n - 1) - (k - 1));
      CutIsRemainder(x / 256, n - 1, k - 1);
      RemainderInTwo(x, Pow256(k - 1));
    }
  }

  lemma {:induction false} RemainderInTwo(x: nat, m: nat)
    requires m > 0
    ensures x % (256 * m) == x % 256 + 256 * ((x / 256) % m)
  {
    var q := x / 256;
    var a, b := q / m, q % m;
    assert q == m * a + b;
    assert x == 256 * m * a + (x % 256 + 256 * b);
    RemainderIsUnique(256 * m, a, x % 256 + 256 * b);
  }

  lemma {:induction false} RemainderIsUnique(m: nat, q: nat, rest: nat)
    requires rest < m
    ensures (m * q + rest) % m == rest
  {
    var x := m * q + rest;
    var d := x / m - q;
    assert m * d == rest - x % m by { assert x == m * (x / m) + x % m; assert m * (x / m) - m * q == m * d; }
    MultipleIsFar(m, d);
  }

  lemma {:induction false} MultipleIsFar(m: nat, d: int)
    ensures d >= 1 ==> m * d >= m
    ensures d <= -1 ==> m * d <= 0 - m
  {
  }

  /** That keeps exactly the values under 256 to the `k`. */
  lemma {:induction false} LeBytesCut(x: nat, n: nat, k: nat)
    requires k <= n
    ensures FromLeBytes(ToLeBytes(x, n)[..k] + Zeroes(n - k)) < Pow256(k)
    ensures FromLeBytes(ToLeBytes(x, n)[..k] + Zeroes(n - k)) <= x
    ensures x < Pow256(k) ==> FromLeBytes(ToLeBytes(x, n)[..k] + Zeroes(n - k)) == x
  {
    CutIsRemainder(x, n, k);
    if x < Pow256(k) { RemainderIsUnique(Pow256(k), 0, x); }
  }

  lemma {:induction false} ZeroValue(n: nat)
    ensures FromLeBytes(Zeroes(n)) == 0
  {
    if n > 0 {
      assert Zeroes(n)[1..] == Zeroes(n - 1);
      ZeroValue(n - 1);
    }
  }

  /** A byte past the cut that is not zero is lost. */
  lemma {:induction false} LeByteBound(x: nat, n: nat, i: nat)
    requires i < n && ToLeBytes(x, n)[i] != 0
    ensures Pow256(i) <= x
  {
    if i > 0 {
      LeByteBound(x / 256, n - 1, i - 1);
    }
  }

  lemma {:induction false} LeByteZero(x: nat, n: nat, i: nat)
    requires i < n && x < Pow256(i)
    ensures ToLeBytes(x, n)[i] == 0
  {
    if i > 0 {
      LeByteZero(x / 256, n - 1, i - 1);
    }
  }

  predicate HasZeroByte(id: U64) {
    exists i :: 0 <= i < 8 && ToLeBytes(id, 8)[i] == 0
  }

  predicate Survives(id: U64) {
    id < 0x100_0000_0000_0000 || !HasZeroByte(id)
  }

  lemma {:induction false} Pow256Values()
    ensures Pow256(7) == 0x100_0000_0000_0000 && Pow256(8) == U64_COUNT
  {
    assert Pow256(4) == 0x1_0000_0000;
  }

  lemma {:induction false} DecodeEncodedBytes(kept: seq<Byte>)
    requires |kept| <= 8
    ensures DecodeId(Base64Url.Encode(kept)) == Some(FromLe8Bytes(kept + Zeroes(8 - |kept|)))
  {
    Base64Url.EncodedLength(kept);
    Base64Url.DecodeEncode(kept);
    DecodeIdOf(Base64Url.Encode(kept), kept);
  }

  lemma {:induction false} DecodeIdOf(text: string, bytes: seq<Byte>)
    requires |text| <= 11 && |bytes| <= 8 && Base64Url.Decode(text) == Some(bytes)
    ensures DecodeId(text) == FromDecoded(Some(bytes)) == Some(FromLe8Bytes(bytes + Zeroes(8 - |bytes|)))
  {
  }

  /** What comes back for any id: its value below the cut. */
  lemma {:induction false} DecodeEncoded(id: U64)
    ensures var end := Cut(ToLeBytes(id, 8));
      DecodeId(EncodeId(id)) == Some(FromLe8Bytes(ToLeBytes(id, 8)[..end] + Zeroes(8 - end)))
  {
    DecodeEncodedBytes(ToLeBytes(id, 8)[..Cut(ToLeBytes(id, 8))]);
  }

  /** Cutting an integer of `n` bytes at its last zero byte keeps its value only if nothing but zeroes follow. */
  lemma {:induction false} CutKeepsValueIff(x: nat, n: nat)
    requires 0 < n && x < Pow256(n)
    ensures var bytes := ToLeBytes(x, n);
      FromLeBytes(bytes[..Cut(bytes)] + Zeroes(n - Cut(bytes))) == x
      <==> (x < Pow256(n - 1) || forall i :: 0 <= i < n ==> bytes[i] != 0)
  {
    var bytes := ToLeBytes(x, n);
    var end := Cut(bytes);
    LeBytesCut(x, n, end);
    if end == n {
      assert bytes[..end] + Zeroes(0) == bytes;
      LeBytesRoundTrip(x, n);
    } else if end < n - 1 {
      LeByteBound(x, n, n - 1);
      PowGrows(end, n - 1);
    } else if x >= Pow256(n - 1) {
      TopByte(x, n);
    }
  }

  lemma {:induction false} TopByte(x: nat, n: nat)
    requires 0 < n && Pow256(n - 1) <= x < Pow256(n)
    ensures ToLeBytes(x, n)[n - 1] != 0
  {
    var bytes := ToLeBytes(x, n);
    if bytes[n - 1] == 0 {
      LeBytesRoundTrip(x, n);
      assert bytes == bytes[..n - 1] + Zeroes(1);
      LeBytesCut(x, n, n - 1);
    }
  }

  /** The ids that survive the round trip are those under 2^56 and those without a zero byte. */
  lemma {:induction false} RoundTripIff(id: U64)
    ensures DecodeId(EncodeId(id)) == Some(id) <==> Survives(id)
  {
    DecodeEncoded(id);
    CutSurvivesIff(id);
  }

  lemma {:induction false} CutSurvivesIff(id: U64)
    ensures var bytes := ToLeBytes(id, 8);
      FromLe8Bytes(bytes[..Cut(bytes)] + Zeroes(8 - Cut(bytes))) == id <==> Survives(id)
  {
    Pow256Values();
    CutKeepsValueIff(id, 8);
  }

  lemma {:induction false} PowGrows(a: nat, b: nat)
    requires a <= b
    ensures Pow256(a) <= Pow256(b)
  {
    if a < b { PowGrows(a, b - 1); }
  }

  /** Any id comes back as its remainder by the power of 256 at which it was cut. */
  lemma {:induction false} ComesBackAs(id: U64)
    ensures Pow256(Cut(ToLeBytes(id, 8))) > 0
    ensures DecodeId(EncodeId(id)) == Some(id % Pow256(Cut(ToLeBytes(id, 8))))
  {
    var k := Cut(ToLeBytes(id, 8));
    CutValue(id, k);
    KeptDecodes(id, id % Pow256(k), ToLeBytes(id, 8)[..k]);
  }

  lemma {:induction false} KeptDecodes(id: U64, value: U64, kept: seq<Byte>)
    requires |kept| <= 8 && kept == ToLeBytes(id, 8)[..Cut(ToLeBytes(id, 8))] && FromLeBytes(kept) == value
    ensures DecodeId(EncodeId(id)) == Some(value)
  {
    SpelledDecodes(EncodeId(id), value, kept);
  }

  lemma {:induction false} CutValue(id: U64, k: nat)
    requires k <= 8
    ensures Pow256(k) > 0 && FromLeBytes(ToLeBytes(id, 8)[..k]) == id % Pow256(k) <= id
  {
    CutIsRemainder(id, 8, k);
    LeBytesCut(id, 8, k);
    PaddedValue(ToLeBytes(id, 8)[..k], 8 - k);
  }

  /** Ids that do not survive: 2^56, and every other multiple of it, comes back as 0. */
  lemma {:induction false} IdIsLost(high: Byte)
    requires high > 0
    ensures var id: U64 := high * 0x100_0000_0000_0000; DecodeId(EncodeId(id)) == Some(0) && !Survives(id)
  {
    var id: U64 := high * 0x100_0000_0000_0000;
    CutOfShifted(high);
    ShiftedRemainder(high);
    ComesBackAs(id);
    RoundTripIff(id);
  }

  lemma {:induction false} CutOfShifted(high: Byte)
    requires high > 0
    ensures Cut(ToLeBytes(high * 0x100_0000_0000_0000, 8)) == 6
  {
    Pow256Values();
    BytesOfShifted(high, 7);
    var bytes := ToLeBytes(high * 0x100_0000_0000_0000, 8);
    assert bytes[6] == 0 && bytes[7] == high;
  }

  lemma {:induction false} ShiftedRemainder(high: Byte)
    ensures Pow256(6) > 0 && (high * 0x100_0000_0000_0000) % Pow256(6) == 0
  {
    Pow256Values();
    assert Pow256(7) == 256 * Pow256(6);
    RemainderIsUnique(Pow256(6), high * 256, 0);
  }

  lemma {:induction false} BytesOfShifted(high: Byte, n: nat)
    ensures ToLeBytes(high * Pow256(n), n + 1) == Zeroes(n) + [high]
  {
    if n == 0 {
      assert ToLeBytes(high / 256, 0) == [];
      assert ToLeBytes(high, 1) == [high];
    } else {
      BytesOfShifted(high, n - 1);
      assert high * Pow256(n) == 256 * (high * Pow256(n - 1));
      assert Zeroes(n) == [0] + Zeroes(n - 1);
    }
  }

  /** Two ids that survive never share a callback id. */
  lemma {:induction false} SurvivorsAreDistinct(a: U64, b: U64)
    requires Survives(a) && Survives(b) && EncodeId(a) == EncodeId(b)
    ensures a == b
  {
    RoundTripIff(a);
    RoundTripIff(b);
  }

  // ----- What the comment in `encode` intends -----

  /** Strips every most significant zero byte. */
  function Stripped(bytes: seq<Byte>): (kept: seq<Byte>)
    ensures kept <= bytes && |kept| <= |bytes|
  {
    if bytes != [] && bytes[|bytes| - 1] == 0 then Stripped(bytes[..|bytes| - 1]) else bytes
  }

  lemma {:induction false} StrippedPads(bytes: seq<Byte>)
    ensures Stripped(bytes) + Zeroes(|bytes| - |Stripped(bytes)|) == bytes
  {
    if bytes != [] && bytes[|bytes| - 1] == 0 {
      var init := bytes[..|bytes| - 1];
      StrippedPads(init);
      assert bytes == init + [0];
    }
  }

  lemma {:induction false} StrippedDecodes(bytes: seq<Byte>)
    requires |bytes| == 8
    ensures DecodeId(Base64Url.Encode(Stripped(bytes))) == Some(FromLe8Bytes(bytes))
  {
    DecodeEncodedBytes(Stripped(bytes));
    StrippedPads(bytes);
  }

  /** That encoding would round-trip for every id. */
  lemma {:induction false} IntendedRoundTrip(id: U64)
    ensures DecodeId(Base64Url.Encode(Stripped(ToLeBytes(id, 8)))) == Some(id)
  {
    StrippedDecodes(ToLeBytes(id, 8));
    Pow256Values();
    LeBytesRoundTrip(id, 8);
  }
}
