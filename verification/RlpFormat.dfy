/** The bytes of an encoding, in numbers, and what the parser makes of the start of one. */
module RlpFormat {
  import opened Rlp

  lemma LastByteOf(s: seq<byte>)
    requires s != []
    ensures ToInteger(s) == s[|s| - 1] + 256 * ToInteger(s[..|s| - 1])
  {
  }

  lemma Distribute(a: int, p: int, q: int, x: int)
    requires q == 256 * p
    ensures 256 * (a * p + x) == a * q + 256 * x
  {
  }

  /** Lengths are big-endian: the first byte counts for the highest power of 256. */
  lemma {:induction false} BigEndian(s: seq<byte>)
    requires s != []
    ensures ToInteger(s) == s[0] * Pow256(|s| - 1) + ToInteger(s[1..])
  {
    hide ToInteger;
    LastByteOf(s);
    var n := |s|;
    var init, rest := s[..n - 1], s[1..];
    if n == 1 {
      assert init == [] && rest == [];
      assert Pow256(0) == 1;
      EmptyIsZero();
    } else {
      BigEndian(init);
      LastByteOf(rest);
      assert init[1..] == rest[..n - 2];
      Distribute(s[0], Pow256(n - 2), Pow256(n - 1), ToInteger(init[1..]));
    }
  }

  lemma EmptyIsZero()
    ensures ToInteger([]) == 0
  {
  }

  /** A length of 56 or more, in k bytes of which the first is not zero. */
  predicate LengthField(field: seq<byte>, k: nat, n: nat) {
    1 <= |field| == k && field[0] != 0 && ToInteger(field) == n
  }

  /** The bytes of a string: itself when it is one byte below 128, and otherwise behind 128 + n or 183 + k. */
  lemma BufferBytes(b: seq<byte>) returns (field: seq<byte>)
    requires |b| < 0x1_0000_0000_0000_0000
    ensures |b| == 1 && b[0] <= 127 ==> Write(Buf(b)) == b
    ensures |b| <= 55 && !(|b| == 1 && b[0] <= 127) ==> Write(Buf(b)) == [128 + |b|] + b
    ensures |b| >= 56 ==> LengthField(field, |field|, |b|) && |field| <= 8 && Write(Buf(b)) == [183 + |field|] + field + b
  {
    hide EncodeBinary, ToInteger, EncodeLength;
    field := EncodeBinary(|b|);
    if |b| >= 56 {
      FieldOf(|b|);
      LongForm(|b|, BUFFER_START);
    } else {
      ShortForm(|b|, BUFFER_START);
    }
  }

  lemma ShortForm(n: nat, offset: byte)
    requires n < 56 && (offset == BUFFER_START || offset == LIST_START)
    ensures EncodeLength(n, offset) == [n + offset]
  {
  }

  lemma FieldOf(n: nat)
    requires 56 <= n < 0x1_0000_0000_0000_0000
    ensures var field := EncodeBinary(n); LengthField(field, |field|, n) && |field| <= 8
  {
    hide EncodeBinary, ToInteger;
    DecodeEncode(n);
    Pow256Values();
    EncodedSize(n, 8);
  }

  /** The bytes of a list: those of its items one after the other, behind 192 + n or 247 + k. */
  lemma ListBytes(vs: seq<RlpValue>) returns (field: seq<byte>)
    requires |WriteAll(vs)| < 0x1_0000_0000_0000_0000
    ensures |WriteAll(vs)| <= 55 ==> Write(Arr(vs)) == [192 + |WriteAll(vs)|] + WriteAll(vs)
    ensures |WriteAll(vs)| >= 56 ==>
      && LengthField(field, |field|, |WriteAll(vs)|) && |field| <= 8
      && Write(Arr(vs)) == [247 + |field|] + field + WriteAll(vs)
  {
    hide EncodeBinary, ToInteger, EncodeLength, WriteAll;
    var n := |WriteAll(vs)|;
    field := EncodeBinary(n);
    if n >= 56 {
      FieldOf(n);
      LongForm(n, LIST_START);
    } else {
      ShortForm(n, LIST_START);
    }
  }

  /** Items follow one another. */
  lemma {:induction false} ItemsConcatenate(us: seq<RlpValue>, vs: seq<RlpValue>)
    ensures WriteAll(us + vs) == WriteAll(us) + WriteAll(vs)
    ensures forall v :: WriteAll([v]) == Write(v)
  {
    hide Write;
    forall v
      ensures WriteAll([v]) == Write(v)
    {
      assert [v][1..] == [];
      assert WriteAll([]) == [];
    }
    if us == [] {
      assert us + vs == vs;
    } else {
      ItemsConcatenate(us[1..], vs);
      assert (us + vs)[1..] == us[1..] + vs;
    }
  }

  // ---- truncated input

  /** A reader with n bytes of an encoding is told to fetch more, and no more than the whole. */
  predicate AsksForMore(r: Outcome, n: nat, whole: nat) {
    r.Fail? && n < r.wanted <= whole
  }

  /** The start of a long encoding: where it reaches that far, its length field is the written one. */
  lemma CutHeader(ch: byte, bin: seq<byte>, rest: seq<byte>, n: nat)
    requires |bin| >= 1 && 0 < n <= 1 + |bin| + |rest|
    ensures var raw := ([ch] + bin + rest)[..n];
      raw[0] == ch && (1 + |bin| <= n ==> raw[1] == bin[0] && raw[1..1 + |bin|] == bin)
  {
    var whole := [ch] + bin + rest;
    LongHeader(ch, bin, rest);
    if 1 + |bin| <= n {
      assert whole[..n][1..1 + |bin|] == whole[1..1 + |bin|];
    }
  }

  lemma CutLongBuffer(raw: seq<byte>, bin: seq<byte>, len: nat, w: int)
    requires Addressable(raw, w) && 1 <= |bin| <= 8 && bin[0] != 0 && ToInteger(bin) == len && len >= 56
    requires 0 < |raw| < 1 + |bin| + len < w && raw[0] == 183 + |bin|
    requires 1 + |bin| <= |raw| ==> raw[1] == bin[0] && raw[1..1 + |bin|] == bin
    ensures AsksForMore(Parse(raw, w), |raw|, 1 + |bin| + len)
  {
    hide ToInteger, Parse;
    SmallLength(1 + |bin| + len, w);
    ParsesLongBuffer(raw, w);
  }

  lemma ParsesLongBuffer(raw: seq<byte>, w: int)
    requires Addressable(raw, w) && |raw| >= 1 && 0xb8 <= raw[0] <= 0xbf
    ensures Parse(raw, w) == ParseLongBuffer(raw, w)
  {
    hide ParseLongBuffer;
  }

  lemma CutArray(raw: seq<byte>, uintlen: nat, payloadlen: nat, w: int)
    requires Addressable(raw, w) && uintlen <= 8 && |raw| < 1 + uintlen + payloadlen < w
    ensures ParseArray(raw, uintlen, payloadlen, false, w) == Fail(1 + uintlen + payloadlen)
  {
    hide ParseItems;
    SmallLength(1 + uintlen + payloadlen, w);
  }

  lemma CutLongList(raw: seq<byte>, bin: seq<byte>, len: nat, w: int)
    requires Addressable(raw, w) && 1 <= |bin| <= 8 && bin[0] != 0 && ToInteger(bin) == len && len >= 56
    requires 0 < |raw| < 1 + |bin| + len < w && raw[0] == 247 + |bin|
    requires 1 + |bin| <= |raw| ==> raw[1] == bin[0] && raw[1..1 + |bin|] == bin
    ensures AsksForMore(Parse(raw, w), |raw|, 1 + |bin| + len)
  {
    hide ToInteger, Parse, ParseArray;
    SmallLength(len, w);
    CutArray(raw, |bin|, len, w);
    ParsesLongList(raw, w);
  }

  lemma ParsesLongList(raw: seq<byte>, w: int)
    requires Addressable(raw, w) && |raw| >= 1 && 0xf8 <= raw[0]
    ensures Parse(raw, w) == ParseLongArray(raw, w)
  {
    hide ParseLongArray;
  }

  lemma TruncatedLongBuffer(b: seq<byte>, n: nat, w: int)
    requires |b| >= 56 && Addressable(Write(Buf(b)), w) && 0 < n < |Write(Buf(b))|
    ensures AsksForMore(Parse(Write(Buf(b))[..n], w), n, |Write(Buf(b))|)
  {
    hide ToInteger, EncodeBinary, EncodeLength, Parse;
    LongPrefix(|b|, w, BUFFER_START);
    var bin := EncodeBinary(|b|);
    CutHeader(BUFFER_START + 55 + |bin|, bin, b, n);
    CutLongBuffer(Write(Buf(b))[..n], bin, |b|, w);
  }

  lemma TruncatedLongList(vs: seq<RlpValue>, n: nat, w: int)
    requires |WriteAll(vs)| >= 56 && Addressable(Write(Arr(vs)), w) && 0 < n < |Write(Arr(vs))|
    ensures AsksForMore(Parse(Write(Arr(vs))[..n], w), n, |Write(Arr(vs))|)
  {
    hide ToInteger, EncodeBinary, EncodeLength, WriteAll, Parse;
    var tmp := WriteAll(vs);
    LongPrefix(|tmp|, w, LIST_START);
    var bin := EncodeBinary(|tmp|);
    CutHeader(LIST_START + 55 + |bin|, bin, tmp, n);
    CutLongList(Write(Arr(vs))[..n], bin, |tmp|, w);
  }

  lemma TruncatedShortBuffer(b: seq<byte>, n: nat, w: int)
    requires |b| < 56 && Addressable(Write(Buf(b)), w) && 0 < n < |Write(Buf(b))|
    ensures AsksForMore(Parse(Write(Buf(b))[..n], w), n, |Write(Buf(b))|)
  {
    hide ToInteger, EncodeBinary;
    assert Write(Buf(b)) == [128 + |b|] + b;
  }

  lemma TruncatedShortList(vs: seq<RlpValue>, n: nat, w: int)
    requires |WriteAll(vs)| < 56 && Addressable(Write(Arr(vs)), w) && 0 < n < |Write(Arr(vs))|
    ensures AsksForMore(Parse(Write(Arr(vs))[..n], w), n, |Write(Arr(vs))|)
  {
    hide ToInteger, EncodeBinary, WriteAll, ParseArray;
    assert Write(Arr(vs)) == [192 + |WriteAll(vs)|] + WriteAll(vs);
    CutArray(Write(Arr(vs))[..n], 0, |WriteAll(vs)|, w);
  }

  /** Every proper start of an encoding is refused, and what `wanted` asks for lies beyond it and within the whole. */
  lemma Truncated(v: RlpValue, n: nat, w: int)
    requires Addressable(Write(v), w) && n < |Write(v)|
    ensures AsksForMore(Parse(Write(v)[..n], w), n, |Write(v)|)
  {
    hide Write, Parse, WriteAll;
    if n == 0 {
      EmptyFails(w);
      assert Write(v)[..0] == [];
    } else {
      match v
      case Buf(b) =>
        if |b| < 56 { TruncatedShortBuffer(b, n, w); } else { TruncatedLongBuffer(b, n, w); }
      case Arr(vs) =>
        if |WriteAll(vs)| < 56 { TruncatedShortList(vs, n, w); } else { TruncatedLongList(vs, n, w); }
    }
  }
}
