/**
 * `bufferToBase64` (src/string.ts, and the identical copy in
 * src/shared/string.ts): the base64 encoding of section 4 of RFC 4648, with
 * `'='` padding. `Encode` is the encoding as the RFC describes it (24-bit
 * groups cut into four 6-bit indices, a short final group padded with zero
 * bits), `Decode` is a decoder for it, and `BufferToBase64` is the implementation's
 * loop with its shifts and masks on 32-bit integers.
 */
module Base64 {

  import opened Wrappers
  import Seqs

  type byte = bv8

  /** The 64-character alphabet of section 4 of RFC 4648 (`encodings` in `bufferToBase64`). */
  function Alphabet(): string {
    "ABCDEFGH" + "IJKLMNOP" + "QRSTUVWX" + "YZabcdef" + "ghijklmn" + "opqrstuv" + "wxyz0123" + "456789+/"
  }

  /** The character of a 6-bit index, by ranges: `A-Z`, `a-z`, `0-9`, `+`, `/`. */
  function RangeChar(d: int): char
    requires 0 <= d < 64
  {
    if d < 26 then ('A' as int + d) as char
    else if d < 52 then ('a' as int + d - 26) as char
    else if d < 62 then ('0' as int + d - 52) as char
    else if d == 62 then '+' else '/'
  }

  lemma AlphabetIsRanges()
    ensures |Alphabet()| == 64
    ensures forall d :: 0 <= d < 64 ==> Alphabet()[d] == RangeChar(d)
  {
    forall d | 0 <= d < 64
      ensures Alphabet()[d] == RangeChar(d)
    {
      if d < 8 {
        assert d == 0 || d == 1 || d == 2 || d == 3 || d == 4 || d == 5 || d == 6 || d == 7;
      }
    }
  }

  /** `encodings[d]`: the character of a 6-bit index. */
  function CharOf(d: byte): char
    requires d < 64
  {
    RangeChar(d as int)
  }

  /** The alphabet is exactly the characters the decoder's table knows. */
  lemma AlphabetIsTable(c: char)
    ensures c in Alphabet() <==> IndexOf(c).Some?
  {
    AlphabetIsRanges();
    if IndexOf(c).Some? {
      assert Alphabet()[RangeIndex(c).value] == c;
    } else if c in Alphabet() {
      var d :| 0 <= d < 64 && Alphabet()[d] == c;
      RangeIndexRangeChar(d);
      assert false;
    }
  }

  /** The decoder's table: the index of an alphabet character, `None` for any other character. */
  function IndexOf(c: char): (r: Option<byte>)
    ensures r.Some? ==> r.value < 64
  {
    match RangeIndex(c)
    case None => None
    case Some(i) => IntBits(i); Some(i as byte)
  }

  /** The inverse of `RangeChar`, as an integer. */
  function RangeIndex(c: char): (r: Option<int>)
    ensures r.Some? ==> 0 <= r.value < 64 && RangeChar(r.value) == c
  {
    if 'A' <= c <= 'Z' then Some(c as int - 'A' as int)
    else if 'a' <= c <= 'z' then Some(c as int - 'a' as int + 26)
    else if '0' <= c <= '9' then Some(c as int - '0' as int + 52)
    else if c == '+' then Some(62)
    else if c == '/' then Some(63)
    else None
  }

  lemma RangeIndexRangeChar(i: int)
    requires 0 <= i < 64
    ensures RangeIndex(RangeChar(i)) == Some(i)
  {
  }

  lemma IntBits(i: int)
    requires 0 <= i < 64
    ensures (i as byte) as int == i && i as byte < 64
  {
    var b := i as byte;
    assert b as int == i;
  }

  lemma BitsInt(d: byte)
    requires d < 64
    ensures 0 <= d as int < 64 && (d as int) as byte == d
  {
  }

  /** The table inverts the alphabet, so the 64 characters are distinct and `'='` is not one of them. */
  lemma IndexOfCharOf(d: byte)
    requires d < 64
    ensures IndexOf(CharOf(d)) == Some(d)
  {
    BitsInt(d);
    RangeIndexRangeChar(d as int);
  }

  lemma CharOfIndexOf(c: char)
    requires IndexOf(c).Some?
    ensures CharOf(IndexOf(c).value) == c
  {
    IntBits(RangeIndex(c).value);
  }

  /** A 24-bit group `b0 b1 b2` cut into four 6-bit indices, high bits first. */
  function Sextets(b0: byte, b1: byte, b2: byte): (r: seq<byte>)
    ensures |r| == 4 && forall k :: 0 <= k < 4 ==> r[k] < 64
  {
    [b0 >> 2, ((b0 & 3) << 4) | (b1 >> 4), ((b1 & 15) << 2) | (b2 >> 6), b2 & 63]
  }

  function Chars(ds: seq<byte>): (s: string)
    requires forall k :: 0 <= k < |ds| ==> ds[k] < 64
    ensures |s| == |ds| && forall k :: 0 <= k < |ds| ==> s[k] == CharOf(ds[k])
  {
    seq(|ds|, k requires 0 <= k < |ds| => CharOf(ds[k]))
  }

  /** The number of `'='` characters that end the encoding of `n` bytes. */
  function PadCount(n: nat): nat {
    if n % 3 == 1 then 2 else if n % 3 == 2 then 1 else 0
  }

  /**
   * Section 4 of RFC 4648: every full group gives four characters; a final
   * group of one byte gives two characters and `"=="`, of two bytes three
   * characters and `"="`, the missing bits taken as zero.
   */
  function Encode(bs: seq<byte>): (s: string)
    decreases |bs|
  {
    if |bs| >= 3 then Chars(Sextets(bs[0], bs[1], bs[2])) + Encode(bs[3..])
    else if |bs| == 2 then Chars(Sextets(bs[0], bs[1], 0)[..3]) + "="
    else if |bs| == 1 then Chars(Sextets(bs[0], 0, 0)[..2]) + "=="
    else ""
  }

  /** The bytes of one four-character quantum, or `None` if it is not valid base64. */
  function DecodeQuantum(q: string, last: bool): Option<seq<byte>>
    requires |q| == 4
  {
    var a, b, c, d := IndexOf(q[0]), IndexOf(q[1]), IndexOf(q[2]), IndexOf(q[3]);
    if a.None? || b.None? then None
    else if last && q[2] == '=' && q[3] == '=' then
      Some([(a.value << 2) | (b.value >> 4)])
    else if c.None? then None
    else if last && q[3] == '=' then
      Some([(a.value << 2) | (b.value >> 4), ((b.value & 15) << 4) | (c.value >> 2)])
    else if d.None? then None
    else
      Some([(a.value << 2) | (b.value >> 4), ((b.value & 15) << 4) | (c.value >> 2), ((c.value & 3) << 6) | d.value])
  }

  /** A decoder for section 4 of RFC 4648: padding is allowed in the last quantum only. */
  function Decode(s: string): Option<seq<byte>>
    decreases |s|
  {
    if s == [] then Some([])
    else if |s| < 4 then None
    else
      match DecodeQuantum(s[..4], |s| == 4)
      case None => None
      case Some(head) =>
        match Decode(s[4..])
        case None => None
        case Some(tail) => Some(head + tail)
  }

  /** Joining the 6-bit indices of a group back together gives its bytes. */
  lemma Regroup(b0: byte, b1: byte, b2: byte)
    ensures var a, b, c, d := b0 >> 2, ((b0 & 3) << 4) | (b1 >> 4), ((b1 & 15) << 2) | (b2 >> 6), b2 & 63;
      && (a << 2) | (b >> 4) == b0
      && ((b & 15) << 4) | (c >> 2) == b1
      && ((c & 3) << 6) | d == b2
  {
  }

  lemma QuantumIndices(ds: seq<byte>)
    requires forall k :: 0 <= k < |ds| ==> ds[k] < 64
    ensures var q := Chars(ds);
      forall k :: 0 <= k < |ds| ==> IndexOf(q[k]) == Some(ds[k]) && q[k] != '='
  {
    forall k | 0 <= k < |ds|
      ensures IndexOf(Chars(ds)[k]) == Some(ds[k]) && Chars(ds)[k] != '='
    {
      IndexOfCharOf(ds[k]);
      assert IndexOf('=') == None;
    }
  }

  lemma QuantumRoundTrip(b0: byte, b1: byte, b2: byte, last: bool)
    ensures DecodeQuantum(Chars(Sextets(b0, b1, b2)), last) == Some([b0, b1, b2])
  {
    QuantumIndices(Sextets(b0, b1, b2));
    Regroup(b0, b1, b2);
  }

  lemma QuantumRoundTrip2(b0: byte, b1: byte)
    ensures DecodeQuantum(Chars(Sextets(b0, b1, 0)[..3]) + "=", true) == Some([b0, b1])
  {
    QuantumIndices(Sextets(b0, b1, 0)[..3]);
    Regroup(b0, b1, 0);
  }

  lemma QuantumRoundTrip1(b0: byte)
    ensures DecodeQuantum(Chars(Sextets(b0, 0, 0)[..2]) + "==", true) == Some([b0])
  {
    QuantumIndices(Sextets(b0, 0, 0)[..2]);
    Regroup(b0, 0, 0);
  }

  /** Decoding a quantum followed by more text. */
  lemma DecodeStep(q: string, rest: string, head: seq<byte>, tail: seq<byte>)
    requires |q| == 4 && DecodeQuantum(q, rest == []) == Some(head) && Decode(rest) == Some(tail)
    ensures Decode(q + rest) == Some(head + tail)
  {
    assert (q + rest)[..4] == q && (q + rest)[4..] == rest;
  }

  /** A standard decoder recovers the bytes from the encoding. */
  lemma {:induction false} DecodeEncode(bs: seq<byte>)
    ensures Decode(Encode(bs)) == Some(bs)
    decreases |bs|, 1
  {
    if |bs| >= 3 {
      DecodeEncodeGroup(bs);
    } else if |bs| == 2 {
      DecodeEncodeTwo(bs);
    } else if |bs| == 1 {
      DecodeEncodeOne(bs);
    }
  }

  lemma {:induction false} DecodeEncodeGroup(bs: seq<byte>)
    requires |bs| >= 3
    ensures Decode(Encode(bs)) == Some(bs)
    decreases |bs|, 0
  {
    var q := Chars(Sextets(bs[0], bs[1], bs[2]));
    var rest := Encode(bs[3..]);
    assert Encode(bs) == q + rest;
    QuantumRoundTrip(bs[0], bs[1], bs[2], rest == []);
    DecodeEncode(bs[3..]);
    DecodeStep(q, rest, [bs[0], bs[1], bs[2]], bs[3..]);
    assert bs == [bs[0], bs[1], bs[2]] + bs[3..];
  }

  lemma DecodeEncodeTwo(bs: seq<byte>)
    requires |bs| == 2
    ensures Decode(Encode(bs)) == Some(bs)
  {
    var q := Chars(Sextets(bs[0], bs[1], 0)[..3]) + "=";
    EncodeLast(bs, 0);
    assert bs[0..] == bs;
    QuantumRoundTrip2(bs[0], bs[1]);
    assert [bs[0], bs[1]] == bs;
    DecodeSingle(q, bs);
  }

  /** Decoding text that is one last quantum. */
  lemma DecodeSingle(q: string, head: seq<byte>)
    requires |q| == 4 && DecodeQuantum(q, true) == Some(head)
    ensures Decode(q) == Some(head)
  {
    assert q[..4] == q && q[4..] == [];
    assert head + [] == head;
  }

  lemma DecodeEncodeOne(bs: seq<byte>)
    requires |bs| == 1
    ensures Decode(Encode(bs)) == Some(bs)
  {
    var q := Chars(Sextets(bs[0], 0, 0)[..2]) + "==";
    EncodeLast(bs, 0);
    assert bs[0..] == bs;
    QuantumRoundTrip1(bs[0]);
    assert [bs[0]] == bs;
    DecodeSingle(q, bs);
  }

  /** `n` bytes encode to `4 * ceil(n / 3)` characters; no bytes encode to `""`. */
  lemma {:induction false} EncodeLength(bs: seq<byte>)
    ensures |Encode(bs)| == 4 * ((|bs| + 2) / 3)
    decreases |bs|
  {
    if |bs| >= 3 {
      EncodeLength(bs[3..]);
    }
  }

  /**
   * Every character is one the decoder's table knows except the last
   * `PadCount(n)`, which are `'='`.
   */
  lemma {:induction false} EncodePadding(bs: seq<byte>)
    ensures var s := Encode(bs); var p := PadCount(|bs|);
      && p <= |s|
      && (forall k :: 0 <= k < |s| - p ==> IndexOf(s[k]).Some?)
      && (forall k :: |s| - p <= k < |s| ==> s[k] == '=')
    decreases |bs|, 1
  {
    if |bs| >= 3 {
      EncodePaddingGroup(bs);
    } else {
      EncodeLast(bs, 0);
      assert bs[0..] == bs;
      if |bs| == 2 {
        QuantumIndices(Sextets(bs[0], bs[1], 0)[..3]);
      } else if |bs| == 1 {
        QuantumIndices(Sextets(bs[0], 0, 0)[..2]);
      }
    }
  }

  lemma {:induction false} EncodePaddingGroup(bs: seq<byte>)
    requires |bs| >= 3
    ensures var s := Encode(bs); var p := PadCount(|bs|);
      && p <= |s|
      && (forall k :: 0 <= k < |s| - p ==> IndexOf(s[k]).Some?)
      && (forall k :: |s| - p <= k < |s| ==> s[k] == '=')
    decreases |bs|, 0
  {
    var ds := Sextets(bs[0], bs[1], bs[2]);
    var rest := Encode(bs[3..]);
    var s := Chars(ds) + rest;
    EncodeFrom(bs, 0);
    assert bs[0..] == bs && bs[3..] == bs[0 + 3..];
    EncodePadding(bs[3..]);
    QuantumIndices(ds);
    assert PadCount(|bs|) == PadCount(|bs[3..]|);
    forall k | 4 <= k < |s|
      ensures s[k] == rest[k - 4]
    {
    }
  }

  /**
   * The encoding of `n` bytes is alphabet characters followed by `"=="`
   * when `n % 3 == 1`, `"="` when `n % 3 == 2`, and nothing otherwise.
   */
  lemma EncodeAlphabet(bs: seq<byte>)
    ensures var s := Encode(bs); var p := PadCount(|bs|);
      && p <= |s|
      && (forall k :: 0 <= k < |s| - p ==> s[k] in Alphabet())
      && s[|s| - p..] == (if |bs| % 3 == 1 then "==" else if |bs| % 3 == 2 then "=" else "")
  {
    var s := Encode(bs);
    var p := PadCount(|bs|);
    EncodePadding(bs);
    forall k | 0 <= k < |s| - p
      ensures s[k] in Alphabet()
    {
      AlphabetIsTable(s[k]);
    }
  }

  /**
   * The loop of `bufferToBase64`: each full group is packed into a 32-bit `chunk`
   * and cut with masks and shifts; the one or two bytes left over are
   * packed and cut the same way, then padded.
   */
  method BufferToBase64(bytes: seq<byte>) returns (base64: string)
    ensures base64 == Encode(bytes)
  {
    var byteLength := |bytes|;
    var byteRemainder := byteLength % 3;
    var mainLength := byteLength - byteRemainder;
    base64 := EncodeMain(bytes, mainLength);
    var tail := "";
    if byteRemainder == 1 {
      tail := EncodeOneByte(bytes[mainLength]);
    } else if byteRemainder == 2 {
      tail := EncodeTwoBytes(bytes[mainLength], bytes[mainLength + 1]);
    }
    EncodeLast(bytes, mainLength);
    base64 := base64 + tail;
  }

  /** The main loop, over the first `mainLength` bytes, three at a time. */
  method EncodeMain(bytes: seq<byte>, mainLength: nat) returns (base64: string)
    requires mainLength <= |bytes| && mainLength % 3 == 0
    ensures base64 + Encode(bytes[mainLength..]) == Encode(bytes)
  {
    base64 := "";
    var i := 0;
    while i < mainLength
      invariant 0 <= i <= mainLength && i % 3 == 0
      invariant base64 + Encode(bytes[i..]) == Encode(bytes)
    {
      var group := EncodeChunk(bytes[i], bytes[i + 1], bytes[i + 2]);
      EncodeFrom(bytes, i);
      Seqs.AppendAssoc(base64, group, Encode(bytes[i + 3..]));
      base64 := base64 + group;
      i := i + 3;
    }
  }

  lemma EncodeFrom(bytes: seq<byte>, i: nat)
    requires i + 3 <= |bytes|
    ensures Encode(bytes[i..]) == Chars(Sextets(bytes[i], bytes[i + 1], bytes[i + 2])) + Encode(bytes[i + 3..])
  {
    assert bytes[i..][3..] == bytes[i + 3..];
  }

  lemma EncodeLast(bytes: seq<byte>, i: nat)
    requires i <= |bytes| < i + 3
    ensures Encode(bytes[i..]) ==
      if |bytes| - i == 1 then Chars(Sextets(bytes[i], 0, 0)[..2]) + "=="
      else if |bytes| - i == 2 then Chars(Sextets(bytes[i], bytes[i + 1], 0)[..3]) + "="
      else ""
  {
  }

  /** One pass of the main loop: `chunk = (b0 << 16) | (b1 << 8) | b2`, then four masked slices. */
  method EncodeChunk(b0: byte, b1: byte, b2: byte) returns (group: string)
    ensures group == Chars(Sextets(b0, b1, b2))
  {
    var chunk: bv32 := ((b0 as bv32) << 16) | ((b1 as bv32) << 8) | (b2 as bv32);
    var a := (chunk & 16515072) >> 18;
    var b := (chunk & 258048) >> 12;
    var c := (chunk & 4032) >> 6;
    var d := chunk & 63;
    ChunkChars(b0, b1, b2, a, b, c, d);
    group := [Alphabet()[a as int], Alphabet()[b as int], Alphabet()[c as int], Alphabet()[d as int]];
  }

  /** The four slices of a packed full group pick the characters of its 6-bit indices. */
  lemma ChunkChars(b0: byte, b1: byte, b2: byte, a: bv32, b: bv32, c: bv32, d: bv32)
    requires var chunk: bv32 := ((b0 as bv32) << 16) | ((b1 as bv32) << 8) | (b2 as bv32);
      && a == (chunk & 16515072) >> 18 && b == (chunk & 258048) >> 12
      && c == (chunk & 4032) >> 6 && d == chunk & 63
    ensures a as int < 64 && b as int < 64 && c as int < 64 && d as int < 64 && |Alphabet()| == 64
    ensures [Alphabet()[a as int], Alphabet()[b as int], Alphabet()[c as int], Alphabet()[d as int]] == Chars(Sextets(b0, b1, b2))
  {
    var ds := Sextets(b0, b1, b2);
    FullGroupMasks(b0, b1, b2);
    EncodingAt(a, ds[0]);
    EncodingAt(b, ds[1]);
    EncodingAt(c, ds[2]);
    EncodingAt(d, ds[3]);
  }

  /** `encodings[x]` for a slice `x` equal to the index `d`. */
  lemma EncodingAt(x: bv32, d: byte)
    requires d < 64 && x as int == d as int
    ensures 0 <= x as int < |Alphabet()| && Alphabet()[x as int] == CharOf(d)
  {
    AlphabetIsRanges();
  }

  /** One byte left over: two characters, the low 2 bits shifted up, then `"=="`. */
  method EncodeOneByte(b0: byte) returns (tail: string)
    ensures tail == Chars(Sextets(b0, 0, 0)[..2]) + "=="
  {
    var chunk: bv32 := b0 as bv32;
    var a := (chunk & 252) >> 2;
    var b := (chunk & 3) << 4;
    var ds := Sextets(b0, 0, 0);
    OneByteMasks(b0);
    EncodingAt(a, ds[0]);
    EncodingAt(b, ds[1]);
    tail := [Alphabet()[a as int], Alphabet()[b as int]] + "==";
    assert tail[..2] == Chars(ds[..2]);
  }

  /** Two bytes left over: three characters, the low 4 bits shifted up, then `"="`. */
  method EncodeTwoBytes(b0: byte, b1: byte) returns (tail: string)
    ensures tail == Chars(Sextets(b0, b1, 0)[..3]) + "="
  {
    var chunk: bv32 := ((b0 as bv32) << 8) | (b1 as bv32);
    var a := (chunk & 64512) >> 10;
    var b := (chunk & 1008) >> 4;
    var c := (chunk & 15) << 2;
    var ds := Sextets(b0, b1, 0);
    TwoByteMasks(b0, b1);
    EncodingAt(a, ds[0]);
    EncodingAt(b, ds[1]);
    EncodingAt(c, ds[2]);
    tail := [Alphabet()[a as int], Alphabet()[b as int], Alphabet()[c as int]] + "=";
    assert tail[..3] == Chars(ds[..3]);
  }

  /** The masks and shifts on a packed full group yield its four 6-bit indices. */
  lemma FullGroupMasks(b0: byte, b1: byte, b2: byte)
    ensures var chunk: bv32 := ((b0 as bv32) << 16) | ((b1 as bv32) << 8) | (b2 as bv32);
      var ds := Sextets(b0, b1, b2);
      && ((chunk & 16515072) >> 18) as int == ds[0] as int
      && ((chunk & 258048) >> 12) as int == ds[1] as int
      && ((chunk & 4032) >> 6) as int == ds[2] as int
      && (chunk & 63) as int == ds[3] as int
  {
    var chunk: bv32 := ((b0 as bv32) << 16) | ((b1 as bv32) << 8) | (b2 as bv32);
    var ds := Sextets(b0, b1, b2);
    assert (chunk & 16515072) >> 18 == ds[0] as bv32;
    assert (chunk & 258048) >> 12 == ds[1] as bv32;
    assert (chunk & 4032) >> 6 == ds[2] as bv32;
    assert chunk & 63 == ds[3] as bv32;
  }

  lemma OneByteMasks(b0: byte)
    ensures var chunk: bv32 := b0 as bv32;
      var ds := Sextets(b0, 0, 0);
      && ((chunk & 252) >> 2) as int == ds[0] as int
      && ((chunk & 3) << 4) as int == ds[1] as int
  {
    var chunk: bv32 := b0 as bv32;
    var ds := Sextets(b0, 0, 0);
    assert (chunk & 252) >> 2 == ds[0] as bv32;
    assert (chunk & 3) << 4 == ds[1] as bv32;
  }

  lemma TwoByteMasks(b0: byte, b1: byte)
    ensures var chunk: bv32 := ((b0 as bv32) << 8) | (b1 as bv32);
      var ds := Sextets(b0, b1, 0);
      && ((chunk & 64512) >> 10) as int == ds[0] as int
      && ((chunk & 1008) >> 4) as int == ds[1] as int
      && ((chunk & 15) << 2) as int == ds[2] as int
  {
    var chunk: bv32 := ((b0 as bv32) << 8) | (b1 as bv32);
    var ds := Sextets(b0, b1, 0);
    assert (chunk & 64512) >> 10 == ds[0] as bv32;
    assert (chunk & 1008) >> 4 == ds[1] as bv32;
    assert (chunk & 15) << 2 == ds[2] as bv32;
  }
}
