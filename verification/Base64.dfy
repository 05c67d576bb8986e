/**
  Decoding Base64 (`ByteArrayCodecs::DecodeBase64` in src/Core/ByteArrayCodecs.cc) undoes the
  encodings of sections 4 and 5 of RFC 4648.
 */
module Base64 {
  import opened Bytes

  // ---------- the decoder ----------

  const PAD: byte := 61

  /**
    The decoding table, range by range. Both alphabets are in it, and the characters ',' and '.'
    have entries of their own; all other characters count as zero.
   */
  function Sextet(ch: byte): (v: nat)
    ensures v < 64
  {
    if 'A' as int <= ch <= 'Z' as int then ch - 'A' as int
    else if 'a' as int <= ch <= 'z' as int then ch - 'a' as int + 26
    else if '0' as int <= ch <= '9' as int then ch - '0' as int + 52
    else if ch == '+' as int || ch == '-' as int || ch == '.' as int then 62
    else if ch == '/' as int || ch == '_' as int || ch == ',' as int then 63
    else 0
  }

  /** Four sextets shifted into place; they do not overlap, so the sum is the bitwise or. */
  function Gathered(a: nat, b: nat, c: nat, d: nat): nat { a * 0x4_0000 + b * 0x1000 + c * 0x40 + d }

  function Octets(n: nat): (r: seq<byte>)
    ensures |r| == 3
  {
    [n / 0x1_0000 % 256, n / 256 % 256, n % 256]
  }

  /** One full group. */
  function DecodeQuad(s: seq<byte>): (r: seq<byte>)
    requires |s| == 4
    ensures |r| == 3
  {
    Octets(Gathered(Sextet(s[0]), Sextet(s[1]), Sextet(s[2]), Sextet(s[3])))
  }

  /** All full groups. */
  function Body(s: seq<byte>): seq<byte>
  {
    if |s| < 4 then [] else DecodeQuad(s[..4]) + Body(s[4..])
  }

  /** The last group when it is not a full one: padded, or cut short. */
  function Tail(s: seq<byte>): seq<byte>
    requires |s| >= 2
  {
    var n := Gathered(Sextet(s[0]), Sextet(s[1]), 0, 0);
    if |s| > 2 && s[2] != PAD then [n / 0x1_0000 % 256, (n + Sextet(s[2]) * 0x40) / 256 % 256] else [n / 0x1_0000 % 256]
  }

  /** No data for the empty string; a length that no encoding has makes the code read past the end. */
  datatype Decoded = NoData | Data(bytes: seq<byte>) | ReadsPastEnd

  /** Where the last, incomplete group starts. */
  function BodyLength(s: seq<byte>): (n: nat)
    requires s != []
    ensures n <= |s| && n % 4 == 0
  {
    if |s| % 4 != 0 || s[|s| - 1] == PAD then ((|s| + 3) / 4 - 1) * 4 else |s|
  }

  function Decode(s: seq<byte>): Decoded
  {
    if s == [] then NoData
    else if |s| % 4 == 1 then ReadsPastEnd
    else
      var n := BodyLength(s);
      Data(Body(s[..n]) + if n < |s| then Tail(s[n..]) else [])
  }

  /** The loop of the source; every access to the string and to the buffer is in bounds. */
  method DecodeBase64(str: seq<byte>) returns (r: Decoded)
    ensures r == Decode(str)
  {
    hide Body, Tail, Octets, Gathered, Sextet;
    if |str| == 0 { return NoData; }
    var padding := if |str| % 4 != 0 || str[|str| - 1] == PAD then 1 else 0;
    var groups := (|str| + 3) / 4 - padding;
    var L, outLen := groups * 4, groups * 3 + padding;
    if padding == 1 && L + 1 >= |str| { return ReadsPastEnd; }
    assert BodyLength(str) == L;
    hide BodyLength;
    var buffer := new byte[outLen + 1](_ => 0);
    DecodeGroups(str, groups, buffer);
    if padding == 1 {
      outLen := DecodeTail(str[L..], buffer, outLen);
    } else {
      assert Body(str[..L]) + [] == Body(str[..L]);
    }
    return Data(buffer[..outLen]);
  }

  /** The full groups. */
  method DecodeGroups(str: seq<byte>, groups: nat, buffer: array<byte>)
    requires groups * 4 <= |str| && groups * 3 < buffer.Length
    modifies buffer
    ensures buffer[..groups * 3] == Body(str[..groups * 4])
  {
    hide Body, Octets, Gathered, Sextet;
    var i, j, L := 0, 0, groups * 4;
    BodyStart(str[..L], buffer[..0]);
    assert str[0..L] == str[..L];
    while i < L
      invariant i <= L && 3 * i == 4 * j && i % 4 == 0
      invariant buffer[..j] + Body(str[i..L]) == Body(str[..L])
    {
      BodyStep(str, i, L, buffer[..j]);
      var n := Gathered(Sextet(str[i]), Sextet(str[i + 1]), Sextet(str[i + 2]), Sextet(str[i + 3]));
      WriteOctets(buffer, j, n);
      i, j := i + 4, j + 3;
    }
    BodyEnd(str[L..L], buffer[..j]);
  }

  method WriteOctets(buffer: array<byte>, j: nat, n: nat)
    requires j + 3 <= buffer.Length
    modifies buffer
    ensures buffer[..j + 3] == old(buffer[..j]) + Octets(n)
  {
    buffer[j], buffer[j + 1], buffer[j + 2] := n / 0x1_0000 % 256, n / 256 % 256, n % 256;
  }

  /** The last group, of which one or two bytes come. */
  method DecodeTail(rest: seq<byte>, buffer: array<byte>, length: nat) returns (outLen: nat)
    requires |rest| >= 2 && 1 <= length < buffer.Length
    modifies buffer
    ensures outLen <= buffer.Length && buffer[..outLen] == old(buffer[..length - 1]) + Tail(rest)
  {
    hide Gathered, Sextet;
    outLen := length;
    var n := Gathered(Sextet(rest[0]), Sextet(rest[1]), 0, 0);
    buffer[outLen - 1] := n / 0x1_0000 % 256;
    if |rest| > 2 && rest[2] != PAD {
      n := n + Sextet(rest[2]) * 0x40;
      buffer[outLen] := n / 256 % 256;
      outLen := outLen + 1;
    }
  }

  lemma BodyStart(s: seq<byte>, none: seq<byte>)
    requires none == []
    ensures none + Body(s) == Body(s)
  {
  }

  lemma BodyEnd(s: seq<byte>, all: seq<byte>)
    requires s == []
    ensures all + Body(s) == all
  {
  }

  lemma BodyStep(s: seq<byte>, i: nat, end: nat, done: seq<byte>)
    requires i + 4 <= end <= |s|
    ensures done + Body(s[i..end]) ==
      done + Octets(Gathered(Sextet(s[i]), Sextet(s[i + 1]), Sextet(s[i + 2]), Sextet(s[i + 3]))) + Body(s[i + 4..end])
  {
    hide Octets, Gathered, Sextet;
    assert s[i..end][4..] == s[i + 4..end];
    var quad := s[i..end][..4];
    assert quad[0] == s[i] && quad[1] == s[i + 1] && quad[2] == s[i + 2] && quad[3] == s[i + 3];
    assert done + (DecodeQuad(quad) + Body(s[i + 4..end])) == done + DecodeQuad(quad) + Body(s[i + 4..end]);
  }

  // ---------- the encodings of RFC 4648 ----------

  /** The alphabet of section 4 of RFC 4648, or the one of section 5, which is safe in URLs. */
  function Letter(url: bool, v: nat): byte
    requires v < 64
  {
    if v < 26 then 'A' as int + v
    else if v < 52 then 'a' as int + (v - 26)
    else if v < 62 then '0' as int + (v - 52)
    else if v == 62 then (if url then '-' else '+') as int
    else (if url then '_' else '/') as int
  }

  function EncodeQuad(url: bool, a: byte, b: byte, c: byte): (r: seq<byte>)
    ensures |r| == 4
  {
    [Letter(url, a / 4), Letter(url, a % 4 * 16 + b / 16), Letter(url, b % 16 * 4 + c / 64), Letter(url, c % 64)]
  }

  /** The last one or two bytes: their bits are filled up with zeros, and padding may follow. */
  function EncodeRest(url: bool, padded: bool, bytes: seq<byte>): seq<byte>
    requires 1 <= |bytes| <= 2
  {
    if |bytes| == 1 then EncodeQuad(url, bytes[0], 0, 0)[..2] + if padded then [PAD, PAD] else []
    else EncodeQuad(url, bytes[0], bytes[1], 0)[..3] + if padded then [PAD] else []
  }

  function Encode(url: bool, padded: bool, bytes: seq<byte>): seq<byte>
  {
    if bytes == [] then []
    else if |bytes| < 3 then EncodeRest(url, padded, bytes)
    else EncodeQuad(url, bytes[0], bytes[1], bytes[2]) + Encode(url, padded, bytes[3..])
  }

  // ---------- decoding undoes encoding ----------

  lemma LettersDecode(url: bool, v: nat)
    requires v < 64
    ensures Sextet(Letter(url, v)) == v && Letter(url, v) != PAD
  {
  }

  lemma BitsRegrouped(a: byte, b: byte, c: byte)
    ensures Gathered(a / 4, a % 4 * 16 + b / 16, b % 16 * 4 + c / 64, c % 64) == a * 0x1_0000 + b * 256 + c
  {
  }

  lemma OctetsOfSum(a: byte, b: byte, c: byte)
    ensures Octets(a * 0x1_0000 + b * 256 + c) == [a, b, c]
  {
    var n := a * 0x1_0000 + b * 256 + c;
    assert n / 256 == a * 256 + b && n % 256 == c;
    assert n / 0x1_0000 == a;
  }

  /** A full group. */
  lemma QuadDecodes(url: bool, a: byte, b: byte, c: byte)
    ensures DecodeQuad(EncodeQuad(url, a, b, c)) == [a, b, c] && EncodeQuad(url, a, b, c)[3] != PAD
  {
    hide Sextet, Letter, Octets, Gathered;
    LettersDecode(url, a / 4);
    LettersDecode(url, a % 4 * 16 + b / 16);
    LettersDecode(url, b % 16 * 4 + c / 64);
    LettersDecode(url, c % 64);
    BitsRegrouped(a, b, c);
    OctetsOfSum(a, b, c);
  }

  lemma RestBits(a: byte, b: byte)
    ensures var n := Gathered(a / 4, a % 4 * 16 + b / 16, 0, 0);
      n / 0x1_0000 % 256 == a && (n + b % 16 * 4 * 0x40) / 256 % 256 == b
  {
    assert Gathered(a / 4, a % 4 * 16 + b / 16, 0, 0) == a * 0x1_0000 + b / 16 * 0x1000;
  }

  /** The sextets of the last group. */
  lemma RestTail(url: bool, padded: bool, bytes: seq<byte>)
    requires 1 <= |bytes| <= 2
    ensures Tail(EncodeRest(url, padded, bytes)) == bytes
  {
    hide Sextet, Letter, Gathered;
    var a, b := bytes[0], if |bytes| == 2 then bytes[1] else 0;
    LettersDecode(url, a / 4);
    LettersDecode(url, a % 4 * 16 + b / 16);
    LettersDecode(url, b % 16 * 4);
    RestBits(a, b);
  }

  /** The last one or two bytes, padded or not. */
  lemma RestDecodes(url: bool, padded: bool, bytes: seq<byte>)
    requires 1 <= |bytes| <= 2
    ensures Decode(EncodeRest(url, padded, bytes)) == Data(bytes)
  {
    hide Tail, Letter;
    RestTail(url, padded, bytes);
    var s := EncodeRest(url, padded, bytes);
    assert BodyLength(s) == 0;
    assert s[0..] == s && s[..0] == [];
    BodyStart([], []);
    assert [] + Tail(s) == Tail(s);
  }

  /** A full group before a string that decodes. */
  lemma DecodeStep(quad: seq<byte>, rest: seq<byte>)
    requires |quad| == 4 && rest != [] && Decode(rest).Data?
    ensures Decode(quad + rest) == Data(DecodeQuad(quad) + Decode(rest).bytes)
  {
    hide DecodeQuad, Tail, BodyLength;
    var s, n := quad + rest, BodyLength(rest);
    BodyLengthStep(quad, rest);
    BodyOfStep(quad, rest, n);
    assert s[n + 4..] == rest[n..];
    var last := if n < |rest| then Tail(rest[n..]) else [];
    hide Body;
    assert DecodeQuad(quad) + Body(rest[..n]) + last == DecodeQuad(quad) + (Body(rest[..n]) + last);
  }

  lemma BodyLengthStep(quad: seq<byte>, rest: seq<byte>)
    requires |quad| == 4 && rest != []
    ensures BodyLength(quad + rest) == BodyLength(rest) + 4
  {
    var s := quad + rest;
    assert s[|s| - 1] == rest[|rest| - 1];
  }

  lemma BodyOfStep(quad: seq<byte>, rest: seq<byte>, n: nat)
    requires |quad| == 4 && n <= |rest|
    ensures Body((quad + rest)[..n + 4]) == DecodeQuad(quad) + Body(rest[..n])
  {
    hide DecodeQuad;
    var s := (quad + rest)[..n + 4];
    assert s[..4] == quad && s[4..] == rest[..n];
  }

  /** For both alphabets, with and without padding, decoding gives back exactly the bytes encoded. */
  lemma {:induction false} DecodeUndoesEncode(url: bool, padded: bool, bytes: seq<byte>)
    ensures Decode(Encode(url, padded, bytes)) == if bytes == [] then NoData else Data(bytes)
    decreases |bytes|
  {
    hide DecodeQuad, EncodeQuad, EncodeRest, Decode;
    if bytes == [] {
      DecodeNothing([]);
    } else if |bytes| < 3 {
      RestDecodes(url, padded, bytes);
    } else {
      var quad, rest := EncodeQuad(url, bytes[0], bytes[1], bytes[2]), bytes[3..];
      QuadDecodes(url, bytes[0], bytes[1], bytes[2]);
      DecodeUndoesEncode(url, padded, rest);
      assert bytes == [bytes[0], bytes[1], bytes[2]] + rest;
      if rest == [] {
        QuadAlone(quad);
        assert quad + [] == quad;
      } else {
        EncodeIsNotEmpty(url, padded, rest);
        DecodeStep(quad, Encode(url, padded, rest));
      }
    }
  }

  lemma DecodeNothing(s: seq<byte>)
    requires s == []
    ensures Decode(s) == NoData
  {
  }

  lemma QuadAlone(quad: seq<byte>)
    requires |quad| == 4 && quad[3] != PAD
    ensures Decode(quad) == Data(DecodeQuad(quad))
  {
    hide DecodeQuad, Tail;
    assert BodyLength(quad) == 4 && quad[..4] == quad;
    BodyEnd(quad[4..], DecodeQuad(quad));
    assert DecodeQuad(quad) + [] == DecodeQuad(quad);
  }

  lemma EncodeIsNotEmpty(url: bool, padded: bool, bytes: seq<byte>)
    requires bytes != []
    ensures Encode(url, padded, bytes) != []
  {
    hide Letter;
  }

  // ---------- what any string decodes to ----------

  lemma SextetsRegrouped(a: nat, b: nat, c: nat, d: nat)
    ensures Gathered(a, b, c, d) == (a * 4 + b / 16) * 0x1_0000 + (b % 16 * 16 + c / 4) * 256 + (c % 4 * 64 + d)
  {
    assert b == b / 16 * 16 + b % 16;
    assert c == c / 4 * 4 + c % 4;
  }

  lemma OctetsOfSextets(a: nat, b: nat, c: nat, d: nat)
    requires a < 64 && b < 64 && c < 64 && d < 64
    ensures Octets(Gathered(a, b, c, d)) == [a * 4 + b / 16, b % 16 * 16 + c / 4, c % 4 * 64 + d]
  {
    SextetsRegrouped(a, b, c, d);
    hide Octets, Gathered;
    OctetsOfSum(a * 4 + b / 16, b % 16 * 16 + c / 4, c % 4 * 64 + d);
  }

  /** Byte `i` of the result, of the four sextets of its group. */
  function ByteAt(s: seq<byte>, i: nat): nat
    requires i / 3 * 4 + i % 3 + 1 < |s|
  {
    var at := i / 3 * 4 + i % 3;
    match i % 3
    case 0 => Sextet(s[at]) * 4 + Sextet(s[at + 1]) / 16
    case 1 => Sextet(s[at]) % 16 * 16 + Sextet(s[at + 1]) / 4
    case _ => Sextet(s[at]) % 4 * 64 + Sextet(s[at + 1])
  }

  lemma ByteAtLater(s: seq<byte>, i: nat)
    requires i >= 3 && i / 3 * 4 + i % 3 + 1 < |s|
    ensures (i - 3) / 3 * 4 + (i - 3) % 3 + 1 < |s| - 4 && ByteAt(s[4..], i - 3) == ByteAt(s, i)
  {
    hide Sextet;
    assert (i - 3) / 3 == i / 3 - 1 && (i - 3) % 3 == i % 3;
  }

  lemma QuadBytes(s: seq<byte>, i: nat)
    requires |s| >= 4 && i < 3
    ensures DecodeQuad(s[..4])[i] == ByteAt(s, i)
  {
    hide Sextet, Octets, Gathered;
    OctetsOfSextets(Sextet(s[0]), Sextet(s[1]), Sextet(s[2]), Sextet(s[3]));
  }

  lemma {:induction false} BodyAt(s: seq<byte>, i: nat)
    requires |s| % 4 == 0 && i < |s| / 4 * 3
    ensures i / 3 * 4 + i % 3 + 1 < |s| && |Body(s)| == |s| / 4 * 3 && Body(s)[i] == ByteAt(s, i)
    decreases |s|
  {
    hide ByteAt, DecodeQuad;
    BodyLengthIs(s);
    if i < 3 {
      QuadBytes(s, i);
    } else {
      BodyAt(s[4..], i - 3);
      ByteAtLater(s, i);
    }
  }

  lemma {:induction false} BodyLengthIs(s: seq<byte>)
    requires |s| % 4 == 0
    ensures |Body(s)| == |s| / 4 * 3
  {
    hide DecodeQuad;
    if s != [] { BodyLengthIs(s[4..]); }
  }

  lemma TailOctets(a: nat, b: nat, c: nat)
    requires a < 64 && b < 64 && c < 64
    ensures Gathered(a, b, 0, 0) / 0x1_0000 % 256 == a * 4 + b / 16
    ensures (Gathered(a, b, 0, 0) + c * 0x40) / 256 % 256 == b % 16 * 16 + c / 4
  {
    hide Gathered, Octets;
    OctetsOfSextets(a, b, 0, 0);
    OctetsOfSextets(a, b, c, 0);
    GatheredThird(a, b, c);
    OctetsAre(Gathered(a, b, 0, 0));
    OctetsAre(Gathered(a, b, c, 0));
  }

  lemma GatheredThird(a: nat, b: nat, c: nat)
    ensures Gathered(a, b, c, 0) == Gathered(a, b, 0, 0) + c * 0x40
  {
  }

  lemma OctetsAre(n: nat)
    ensures Octets(n)[0] == n / 0x1_0000 % 256 && Octets(n)[1] == n / 256 % 256
  {
  }

  lemma TailBytes(s: seq<byte>, a: nat, b: nat, c: nat)
    requires |s| >= 2 && a == Sextet(s[0]) && b == Sextet(s[1]) && c == if |s| > 2 then Sextet(s[2]) else 0
    ensures Tail(s) == [a * 4 + b / 16] + if |s| > 2 && s[2] != PAD then [b % 16 * 16 + c / 4] else []
  {
    hide Sextet, Gathered;
    TailOctets(a, b, c);
  }

  /** No data for the empty string only; the code reads past the end exactly for lengths of one modulo four. */
  lemma DecodesIff(s: seq<byte>)
    ensures Decode(s).NoData? <==> s == []
    ensures Decode(s).ReadsPastEnd? <==> |s| % 4 == 1
  {
  }

  /** The bytes of the last group that starts at `n`. */
  lemma TailBytesAt(s: seq<byte>, n: nat, k: nat)
    requires n % 4 == 0 && n + 2 <= |s|
    ensures |Tail(s[n..])| == if |s| > n + 2 && s[n + 2] != PAD then 2 else 1
    ensures k < |Tail(s[n..])| ==> n + k + 1 < |s| && Tail(s[n..])[k] == ByteAt(s, n / 4 * 3 + k)
  {
    hide Sextet, Tail;
    var i, at := n / 4 * 3 + k, n / 4;
    TailBytes(s[n..], Sextet(s[n]), Sextet(s[n + 1]), if |s| > n + 2 then Sextet(s[n + 2]) else 0);
    if k < |Tail(s[n..])| {
      assert i == at * 3 + k && k < 3;
      assert i / 3 == at && i % 3 == k && i / 3 * 4 + i % 3 == n + k;
    }
  }

  lemma BodyBytesAt(s: seq<byte>, n: nat, i: nat)
    requires n % 4 == 0 && n <= |s| && i < n / 4 * 3
    ensures i / 3 * 4 + i % 3 + 1 < |s| && i < |Body(s[..n])| && Body(s[..n])[i] == ByteAt(s, i)
  {
    hide Sextet, Body;
    BodyAt(s[..n], i);
  }

  /** How many bytes there are. */
  lemma DecodedLength(s: seq<byte>)
    requires s != [] && |s| % 4 != 1
    ensures var n := BodyLength(s);
      && Decode(s) == Data(Body(s[..n]) + if n < |s| then Tail(s[n..]) else [])
      && (n < |s| ==> n + 2 <= |s| && n == (|s| - 1) / 4 * 4)
      && (n == |s| <==> |s| % 4 == 0 && s[|s| - 1] != PAD)
  {
    hide Sextet, Body, Tail;
  }

  /**
    Whatever the string: how many bytes it decodes to, and that each byte is made of the sextets it
    spans. Padding counts only in the last group.
   */
  lemma DecodesTo(s: seq<byte>, i: nat)
    requires s != [] && |s| % 4 != 1
    ensures Decode(s).Data?
    ensures var (full, groups) := (|s| % 4 == 0 && s[|s| - 1] != PAD, (|s| - 1) / 4);
      |Decode(s).bytes| == 3 * groups + (if full then 3 else if |s| > 4 * groups + 2 && s[4 * groups + 2] != PAD then 2 else 1)
    ensures i < |Decode(s).bytes| ==> i / 3 * 4 + i % 3 + 1 < |s| && Decode(s).bytes[i] == ByteAt(s, i)
  {
    hide Sextet, Body, Tail, Decode, BodyLength, ByteAt;
    var n := BodyLength(s);
    DecodedLength(s);
    BodyLengthIs(s[..n]);
    if i < n / 4 * 3 { BodyBytesAt(s, n, i); }
    if n < |s| {
      var k := if i < n / 4 * 3 then 0 else i - n / 4 * 3;
      TailBytesAt(s, n, k);
    }
  }

  // ---------- the alphabet ----------

  /** "Zm9v" and "YmFy" are "foobar" (section 10 of RFC 4648); "+/-_" has the two last values of both alphabets. */
  lemma KnownQuads()
    ensures DecodeQuad([90, 109, 57, 118]) == [102, 111, 111]
    ensures DecodeQuad([89, 109, 70, 121]) == [98, 97, 114]
    ensures DecodeQuad([43, 47, 45, 95]) == [251, 255, 191]
  {
    OctetsOfSextets(25, 38, 61, 47);
    OctetsOfSextets(24, 38, 5, 50);
    OctetsOfSextets(62, 63, 62, 63);
  }

  /** Characters of neither alphabet count as zero, but for the comma and the dot. */
  lemma OthersAreZero(ch: byte)
    ensures (exists url, v: nat :: v < 64 && Letter(url, v) == ch)
      || Sextet(ch) == if ch == ',' as int then 63 else if ch == '.' as int then 62 else 0
  {
    if 'A' as int <= ch <= 'Z' as int {
      assert Letter(true, ch - 'A' as int) == ch;
    } else if 'a' as int <= ch <= 'z' as int {
      assert Letter(true, ch - 'a' as int + 26) == ch;
    } else if '0' as int <= ch <= '9' as int {
      assert Letter(true, ch - '0' as int + 52) == ch;
    }
    assert Letter(true, 62) == '-' as int && Letter(false, 62) == '+' as int;
    assert Letter(true, 63) == '_' as int && Letter(false, 63) == '/' as int;
  }
}
