/**
 Recursive Length Prefix values, their printer and their strict parser
 (libs/eosio.evm/external/rlp/rlp.hpp; the format is Appendix B of the Ethereum Yellow Paper).
 The number of size_t values is a parameter w: 2^32 on the contract's 32-bit target, 2^64 elsewhere.
 */
module Rlp {
  import opened Products

  type byte = x: int | 0 <= x < 256

  datatype RlpValue = Buf(value: seq<byte>) | Arr(values: seq<RlpValue>)

  const LIST_START: byte := 0xc0
  const BUFFER_START: byte := 0x80

  const WIDE: int := 0x1_0000_0000_0000_0000   // 64 bits

  predicate SizeT(w: int) {
    w == 0x1_0000_0000 || w == WIDE
  }

  // ---------- big-endian lengths ----------

  /** 256^k. */
  function Pow256(k: nat): (r: nat)
    ensures r >= 1
  {
    if k == 0 then 1 else 256 * Pow256(k - 1)
  }

  /** encodeBinary: big-endian bytes without leading zeroes. */
  function EncodeBinary(n: nat): seq<byte> {
    if n == 0 then [] else EncodeBinary(n / 256) + [n % 256]
  }

  /** toInteger. */
  function ToInteger(raw: seq<byte>): nat {
    if |raw| == 0 then 0
    else if |raw| == 1 then raw[0]
    else raw[|raw| - 1] + ToInteger(raw[..|raw| - 1]) * 256
  }

  lemma {:induction false} ToIntegerBound(s: seq<byte>)
    ensures ToInteger(s) < Pow256(|s|)
    ensures |s| > 0 && s[0] != 0 ==> Pow256(|s| - 1) <= ToInteger(s)
  {
    if |s| == 1 {
      assert Pow256(1) == 256 * Pow256(0);
    } else if |s| > 1 {
      ToIntegerBound(s[..|s| - 1]);
    }
  }

  lemma {:induction false} DecodeEncode(n: nat)
    ensures ToInteger(EncodeBinary(n)) == n
    ensures n > 0 ==> |EncodeBinary(n)| > 0 && EncodeBinary(n)[0] != 0
  {
    if n >= 256 {
      DecodeEncode(n / 256);
      assert EncodeBinary(n)[..|EncodeBinary(n)| - 1] == EncodeBinary(n / 256);
    } else if n > 0 {
      assert EncodeBinary(n / 256) == [];
    }
  }

  lemma LastByte(n: nat, high: nat, low: byte)
    requires n == low + high * 256
    ensures n / 256 == high && n % 256 == low
  {
    DivModUnique(n, 256, high, low);
  }

  lemma {:induction false} EncodeDecode(s: seq<byte>)
    requires |s| > 0 ==> s[0] != 0
    ensures EncodeBinary(ToInteger(s)) == s
  {
    if |s| == 1 {
      assert EncodeBinary(s[0] / 256) == [];
      assert s == [s[0]];
    } else if |s| > 1 {
      var init := s[..|s| - 1];
      EncodeDecode(init);
      ToIntegerBound(init);
      LastByte(ToInteger(s), ToInteger(init), s[|s| - 1]);
      assert s == init + [s[|s| - 1]];
    }
  }

  /** A number below 256^k needs at most k bytes, one at least 256^k needs more. */
  lemma {:induction false} EncodedSize(n: nat, k: nat)
    ensures |EncodeBinary(n)| <= k <==> n < Pow256(k)
  {
    if n == 0 || k == 0 {
    } else {
      EncodedSize(n / 256, k - 1);
    }
  }

  lemma Pow256Values()
    ensures Pow256(4) == 0x1_0000_0000 && Pow256(8) == 0x1_0000_0000_0000_0000
  {
    assert Pow256(2) == 0x1_0000;
    assert Pow256(4) == 0x1_0000 * Pow256(2);
    assert Pow256(6) == 0x1_0000 * Pow256(4);
    assert Pow256(8) == 0x1_0000 * Pow256(6);
  }

  /** Longer numbers have longer encodings. */
  lemma {:induction false} EncodedMonotone(m: nat, n: nat)
    requires m <= n
    ensures |EncodeBinary(m)| <= |EncodeBinary(n)|
  {
    EncodedSize(n, |EncodeBinary(n)|);
    EncodedSize(m, |EncodeBinary(n)|);
  }

  // ---------- the printer ----------

  /** encodeLength; the prefix byte is an unsigned char. */
  function EncodeLength(n: nat, offset: byte): seq<byte> {
    if n < 56 then [(n + offset) % 256]
    else
      var binlen := EncodeBinary(n);
      [(|binlen| + offset + 55) % 256] + binlen
  }

  /** write: a single byte below 0x80 stands for itself, everything else is prefixed by its length. */
  function Write(v: RlpValue): seq<byte>
    decreases v, 0
  {
    match v
    case Buf(b) => if |b| == 1 && b[0] < 0x80 then b else EncodeLength(|b|, BUFFER_START) + b
    case Arr(vs) => var tmp := WriteAll(vs); EncodeLength(|tmp|, LIST_START) + tmp
  }

  function WriteAll(vs: seq<RlpValue>): seq<byte>
    decreases vs, 1
  {
    if vs == [] then [] else Write(vs[0]) + WriteAll(vs[1..])
  }

  // ---------- the parser ----------

  /** narrowed records whether some list length was cut down to the width of size_t on the way. */
  datatype Outcome =
    | Fail(wanted: nat)
    | Done(value: RlpValue, consumed: nat, narrowed: bool)

  datatype ItemsOutcome =
    | ItemsFail
    | Items(values: seq<RlpValue>, narrowed: bool)

  function Larger(a: nat, b: nat): nat {
    if a > b then a else b
  }

  /** An input that leaves room for a header in size_t; no longer one fits an address space. */
  predicate Addressable(raw: seq<byte>, w: int) {
    SizeT(w) && |raw| + 9 < w
  }

  /** Case 2: a short buffer, minimally encoded. */
  function ParseShortBuffer(raw: seq<byte>): (r: Outcome)
    requires |raw| >= 1 && 0x80 <= raw[0] <= 0xb7
    ensures r.Done? ==> 1 <= r.consumed <= |raw|
  {
    var blen := raw[0] - 0x80;
    if |raw| < 1 + blen then Fail(1 + blen)
    else if blen == 1 && raw[1] <= 0x7f then Fail(0)
    else Done(Buf(raw[1..1 + blen]), 1 + blen, false)
  }

  /** Case 3: a buffer with an explicit length field of uintlen bytes. */
  function ParseLongBuffer(raw: seq<byte>, w: int): (r: Outcome)
    requires Addressable(raw, w) && |raw| >= 1 && 0xb8 <= raw[0] <= 0xbf
    ensures r.Done? ==> 1 <= r.consumed <= |raw|
  {
    var uintlen := raw[0] - 0xb7;
    if |raw| < 1 + uintlen then Fail(1 + uintlen)
    else if uintlen > 1 && raw[1] == 0 then Fail(0)
    else
      var slen := ToInteger(raw[1..1 + uintlen]);
      var expected := (1 + uintlen + slen) % w;
      if slen < 56 || expected > |raw| || slen > |raw| then Fail(Larger(slen, expected) % w)
      else Done(Buf(raw[1 + uintlen..1 + uintlen + slen]), expected, false)
  }

  /** readArray: the payload length is checked against the input and the payload read item by item. */
  function ParseArray(raw: seq<byte>, uintlen: nat, payloadlen: nat, narrowed: bool, w: int): (r: Outcome)
    requires Addressable(raw, w) && uintlen <= 8
    ensures r.Done? ==> 1 <= r.consumed <= |raw|
    decreases |raw|, 0
  {
    var expected := (1 + uintlen + payloadlen) % w;
    if expected > |raw| || payloadlen > |raw| then Fail(Larger(expected, payloadlen))
    else
      match ParseItems(raw[1 + uintlen..1 + uintlen + payloadlen], w)
      case ItemsFail => Fail(0)
      case Items(vs, inner) => Done(Arr(vs), 1 + uintlen + payloadlen, narrowed || inner)
  }

  /** Case 5: a list with an explicit length field, which is narrowed to size_t before it is checked. */
  function ParseLongArray(raw: seq<byte>, w: int): (r: Outcome)
    requires Addressable(raw, w) && |raw| >= 1 && 0xf8 <= raw[0]
    ensures r.Done? ==> 1 <= r.consumed <= |raw|
    decreases |raw|, 1
  {
    var uintlen := raw[0] - 0xf7;
    if |raw| < 1 + uintlen then Fail(1 + uintlen)
    else if uintlen > 1 && raw[1] == 0 then Fail(0)
    else
      var length := ToInteger(raw[1..1 + uintlen]);
      var payloadlen := length % w;
      if payloadlen < 56 then Fail(0)
      else ParseArray(raw, uintlen, payloadlen, length >= w, w)
  }

  /** read: the five cases of the first byte. */
  function Parse(raw: seq<byte>, w: int): (r: Outcome)
    requires Addressable(raw, w)
    ensures r.Done? ==> 1 <= r.consumed <= |raw|
    decreases |raw|, 2
  {
    if |raw| < 1 then Fail(1)
    else if raw[0] <= 0x7f then Done(Buf(raw[..1]), 1, false)
    else if raw[0] <= 0xb7 then ParseShortBuffer(raw)
    else if raw[0] <= 0xbf then ParseLongBuffer(raw, w)
    else if raw[0] <= 0xf7 then ParseArray(raw, 0, raw[0] - 0xc0, false, w)
    else ParseLongArray(raw, w)
  }

  /** The loop of readArray: items until the payload is used up. */
  function ParseItems(p: seq<byte>, w: int): ItemsOutcome
    requires Addressable(p, w)
    decreases |p|, 3
  {
    if p == [] then Items([], false)
    else
      match Parse(p, w)
      case Fail(_) => ItemsFail
      case Done(v, c, n) =>
        match ParseItems(p[c..], w)
        case ItemsFail => ItemsFail
        case Items(vs, m) => Items([v] + vs, n || m)
  }

  // ---------- reading back what was written ----------

  lemma PrefixTake(a: seq<byte>, b: seq<byte>, c: seq<byte>)
    ensures (a + b + c)[|a|..|a| + |b|] == b && (a + b + c)[..|a|] == a
    ensures |a + b + c| == |a| + |b| + |c|
  {
  }

  lemma LengthFieldSize(n: nat, w: int)
    requires SizeT(w) && n < w
    ensures n < Pow256(8)
  {
    Pow256Values();
  }

  /** The prefix of a length that does not fit the prefix byte. */
  lemma LongPrefix(n: nat, w: int, offset: byte)
    requires SizeT(w) && 56 <= n < w && (offset == BUFFER_START || offset == LIST_START)
    ensures var bin := EncodeBinary(n);
            && 1 <= |bin| <= 8 && bin[0] != 0 && ToInteger(bin) == n
            && EncodeLength(n, offset) == [offset + 55 + |bin|] + bin
  {
    hide ToInteger, SizeT, Pow256, EncodeBinary, EncodeLength;
    LengthFieldSize(n, w);
    EncodedSize(n, 8);
    DecodeEncode(n);
    LongForm(n, offset);
  }

  lemma LongForm(n: nat, offset: byte)
    requires n >= 56 && |EncodeBinary(n)| <= 8 && (offset == BUFFER_START || offset == LIST_START)
    ensures EncodeLength(n, offset) == [offset + 55 + |EncodeBinary(n)|] + EncodeBinary(n)
  {
    hide EncodeBinary;
  }

  /** The length field as the parser sees it. */
  lemma LongHeader(ch: byte, bin: seq<byte>, rest: seq<byte>)
    requires |bin| >= 1
    ensures var raw := [ch] + bin + rest;
            |raw| >= 1 + |bin| && raw[0] == ch && raw[1] == bin[0] && raw[1..1 + |bin|] == bin
  {
  }

  lemma RoundTripLongBuffer(b: seq<byte>, suffix: seq<byte>, w: int)
    requires |b| >= 56 && Addressable(Write(Buf(b)) + suffix, w)
    ensures Parse(Write(Buf(b)) + suffix, w) == Done(Buf(b), |Write(Buf(b))|, false)
  {
    hide ToInteger, EncodeBinary, EncodeLength;
    LongPrefix(|b|, w, BUFFER_START);
    var bin := EncodeBinary(|b|);
    var head := [BUFFER_START + 55 + |bin|] + bin;
    var raw := Write(Buf(b)) + suffix;
    assert raw == head + b + suffix;
    assert head + b + suffix == head + (b + suffix);
    LongHeader(BUFFER_START + 55 + |bin|, bin, b + suffix);
    PrefixTake(head, b, suffix);
    assert Parse(raw, w) == ParseLongBuffer(raw, w);
  }

  lemma RoundTripShortBuffer(b: seq<byte>, suffix: seq<byte>, w: int)
    requires |b| < 56 && Addressable(Write(Buf(b)) + suffix, w)
    ensures Parse(Write(Buf(b)) + suffix, w) == Done(Buf(b), |Write(Buf(b))|, false)
  {
    var raw := Write(Buf(b)) + suffix;
    if |b| == 1 && b[0] < 0x80 {
      assert raw[..1] == b;
    } else {
      var head := [BUFFER_START + |b|];
      assert raw == head + b + suffix;
      PrefixTake(head, b, suffix);
      assert |b| > 0 ==> raw[1] == b[0];
      assert Parse(raw, w) == ParseShortBuffer(raw);
    }
  }

  lemma PayloadParses(head: seq<byte>, tmp: seq<byte>, suffix: seq<byte>, vs: seq<RlpValue>, uintlen: nat, w: int)
    requires Addressable(head + tmp + suffix, w) && |head| == 1 + uintlen && uintlen <= 8
    requires ParseItems(tmp, w) == Items(vs, false)
    ensures ParseArray(head + tmp + suffix, uintlen, |tmp|, false, w) == Done(Arr(vs), |head| + |tmp|, false)
  {
    hide ParseItems;
    PrefixTake(head, tmp, suffix);
  }

  lemma RoundTripArray(vs: seq<RlpValue>, suffix: seq<byte>, w: int)
    requires Addressable(Write(Arr(vs)) + suffix, w)
    requires |WriteAll(vs)| + 9 < w && ParseItems(WriteAll(vs), w) == Items(vs, false)
    ensures Parse(Write(Arr(vs)) + suffix, w) == Done(Arr(vs), |Write(Arr(vs))|, false)
  {
    hide ToInteger, EncodeBinary, WriteAll, ParseItems, ParseArray;
    var tmp := WriteAll(vs);
    var head := EncodeLength(|tmp|, LIST_START);
    var raw := Write(Arr(vs)) + suffix;
    assert raw == head + tmp + suffix;
    if |tmp| < 56 {
      PayloadParses(head, tmp, suffix, vs, 0, w);
    } else {
      RoundTripLongArray(vs, suffix, w);
    }
  }

  lemma RoundTripLongArray(vs: seq<RlpValue>, suffix: seq<byte>, w: int)
    requires Addressable(Write(Arr(vs)) + suffix, w) && 56 <= |WriteAll(vs)|
    requires |WriteAll(vs)| + 9 < w && ParseItems(WriteAll(vs), w) == Items(vs, false)
    ensures Parse(Write(Arr(vs)) + suffix, w) == Done(Arr(vs), |Write(Arr(vs))|, false)
  {
    hide ToInteger, EncodeBinary, WriteAll, ParseItems, ParseArray, EncodeLength;
    var tmp := WriteAll(vs);
    var head := EncodeLength(|tmp|, LIST_START);
    var raw := Write(Arr(vs)) + suffix;
    assert raw == head + tmp + suffix;
    LongPrefix(|tmp|, w, LIST_START);
    var bin := EncodeBinary(|tmp|);
    PayloadParses(head, tmp, suffix, vs, |bin|, w);
    assert head + tmp + suffix == head + (tmp + suffix);
    LongHeader(LIST_START + 55 + |bin|, bin, tmp + suffix);
    assert Parse(raw, w) == ParseLongArray(raw, w);
  }

  /** read applied to write(v) and any suffix returns v and consumes exactly write(v). */
  lemma {:induction false} RoundTrip(v: RlpValue, suffix: seq<byte>, w: int)
    requires Addressable(Write(v) + suffix, w)
    ensures Parse(Write(v) + suffix, w) == Done(v, |Write(v)|, false)
    decreases v, 0
  {
    match v
    case Buf(b) =>
      if |b| < 56 { RoundTripShortBuffer(b, suffix, w); } else { RoundTripLongBuffer(b, suffix, w); }
    case Arr(vs) =>
      RoundTripAll(vs, w);
      RoundTripArray(vs, suffix, w);
  }

  lemma {:induction false} RoundTripAll(vs: seq<RlpValue>, w: int)
    requires Addressable(WriteAll(vs), w)
    ensures ParseItems(WriteAll(vs), w) == Items(vs, false)
    decreases vs, 1
  {
    if vs == [] {
    } else {
      var first, rest := Write(vs[0]), WriteAll(vs[1..]);
      RoundTrip(vs[0], rest, w);
      RoundTripAll(vs[1..], w);
      assert (first + rest)[|first|..] == rest;
      WriteNotEmpty(vs[0]);
      assert vs == [vs[0]] + vs[1..];
    }
  }

  lemma WriteNotEmpty(v: RlpValue)
    ensures Write(v) != []
  {
  }

  // ---------- canonical form ----------

  /** write never grows what was read, and reproduces it exactly when no list length was narrowed. */
  ghost predicate Reproduces(written: seq<byte>, input: seq<byte>, narrowed: bool) {
    && |written| <= |input|
    && (narrowed ==> |written| < |input|)
    && (!narrowed ==> written == input)
  }

  lemma LongerLength(m: nat, n: nat, offset: byte)
    requires m <= n
    ensures |EncodeLength(m, offset)| <= |EncodeLength(n, offset)|
  {
    hide EncodeBinary;
    EncodedMonotone(m, n);
  }

  /** A length field without a leading zero byte that holds at least 56 is the one encodeLength writes. */
  lemma CanonicalLength(field: seq<byte>, offset: byte)
    requires 1 <= |field| <= 8 && field[0] != 0 && ToInteger(field) >= 56
    requires offset == BUFFER_START || offset == LIST_START
    ensures EncodeLength(ToInteger(field), offset) == [offset + 55 + |field|] + field
  {
    hide ToInteger, EncodeBinary;
    EncodeDecode(field);
  }

  lemma CanonicalShortBuffer(raw: seq<byte>)
    requires |raw| >= 1 && 0x80 <= raw[0] <= 0xb7 && ParseShortBuffer(raw).Done?
    ensures Write(ParseShortBuffer(raw).value) == raw[..ParseShortBuffer(raw).consumed]
  {
    hide EncodeBinary;
    var r := ParseShortBuffer(raw);
    assert raw[..r.consumed] == [raw[0]] + raw[1..r.consumed];
    assert |r.value.value| == 1 ==> r.value.value[0] == raw[1];
  }

  lemma CanonicalLongBuffer(raw: seq<byte>, w: int)
    requires Addressable(raw, w) && |raw| >= 1 && 0xb8 <= raw[0] <= 0xbf && ParseLongBuffer(raw, w).Done?
    ensures Write(ParseLongBuffer(raw, w).value) == raw[..ParseLongBuffer(raw, w).consumed]
  {
    hide ToInteger, EncodeBinary, EncodeLength;
    var r := ParseLongBuffer(raw, w);
    var k := raw[0] - 0xb7;
    var field := raw[1..1 + k];
    assert field[0] == raw[1];
    ShortField(field);
    CanonicalLength(field, BUFFER_START);
    assert raw[..r.consumed] == ([raw[0]] + field) + raw[1 + k..r.consumed];
  }

  lemma CanonicalBuffer(raw: seq<byte>, w: int)
    requires Addressable(raw, w) && |raw| >= 1 && raw[0] <= 0xbf && Parse(raw, w).Done?
    ensures !Parse(raw, w).narrowed && Write(Parse(raw, w).value) == raw[..Parse(raw, w).consumed]
  {
    hide ParseShortBuffer, ParseLongBuffer;
    if raw[0] <= 0x7f {
    } else if raw[0] <= 0xb7 {
      CanonicalShortBuffer(raw);
      ShortNotNarrowed(raw);
    } else {
      CanonicalLongBuffer(raw, w);
      LongNotNarrowed(raw, w);
    }
  }

  lemma ShortNotNarrowed(raw: seq<byte>)
    requires |raw| >= 1 && 0x80 <= raw[0] <= 0xb7 && ParseShortBuffer(raw).Done?
    ensures !ParseShortBuffer(raw).narrowed
  {
  }

  lemma LongNotNarrowed(raw: seq<byte>, w: int)
    requires Addressable(raw, w) && |raw| >= 1 && 0xb8 <= raw[0] <= 0xbf && ParseLongBuffer(raw, w).Done?
    ensures !ParseLongBuffer(raw, w).narrowed
  {
  }

  /** A one-byte field of at least 56 is not a zero byte. */
  lemma ShortField(field: seq<byte>)
    requires |field| >= 1 && (|field| > 1 ==> field[0] != 0) && ToInteger(field) >= 56
    ensures field[0] != 0
  {
  }

  /** A narrowed list length takes a longer field than the length that is left. */
  lemma NarrowedField(field: seq<byte>, n: nat, w: int)
    requires SizeT(w) && 1 <= |field| <= 8 && ToInteger(field) >= w && n < w
    ensures |EncodeBinary(n)| < |field|
  {
    hide ToInteger, EncodeBinary, Pow256;
    Pow256Values();
    ToIntegerBound(field);
    var k := if w == 0x1_0000_0000 then 4 else 8;
    EncodedSize(n, k);
    if |field| <= k {
      Pow256Monotone(|field|, k);
    }
  }

  lemma {:induction false} Pow256Monotone(a: nat, b: nat)
    requires a <= b
    ensures Pow256(a) <= Pow256(b)
  {
    if a >= b {
    } else {
      Pow256Monotone(a, b - 1);
    }
  }

  /** A list is reproduced if its payload is and its header is the one encodeLength writes. */
  lemma CanonicalList(head: seq<byte>, payload: seq<byte>, tmp: seq<byte>, inner: bool, narrowed: bool)
    requires Reproduces(tmp, payload, inner)
    requires !narrowed ==> head == EncodeLength(|payload|, LIST_START)
    requires narrowed ==> |EncodeLength(|payload|, LIST_START)| < |head|
    ensures Reproduces(EncodeLength(|tmp|, LIST_START) + tmp, head + payload, narrowed || inner)
  {
    hide EncodeLength;
    LongerLength(|tmp|, |payload|, LIST_START);
  }

  /** The header of a successfully read list. */
  lemma ListHeader(raw: seq<byte>, w: int)
    requires Addressable(raw, w) && |raw| >= 1 && raw[0] > 0xbf && Parse(raw, w).Done?
    ensures var r := Parse(raw, w);
            exists uintlen: nat, payloadlen: nat, narrowed: bool ::
              && uintlen <= 8 && r.consumed == 1 + uintlen + payloadlen
              && ListParts(raw, w, uintlen, payloadlen, narrowed)
              && (!narrowed ==> raw[..1 + uintlen] == EncodeLength(payloadlen, LIST_START))
              && (narrowed ==> |EncodeLength(payloadlen, LIST_START)| < 1 + uintlen)
  {
    hide ToInteger, EncodeBinary, EncodeLength, ParseItems;
    var r := Parse(raw, w);
    if raw[0] <= 0xf7 {
      var n: nat := raw[0] - 0xc0;
      ShortLength(n, raw);
      ArrayParts(raw, 0, n, false, w);
    } else {
      var k: nat := raw[0] - 0xf7;
      var field := raw[1..1 + k];
      assert field[0] == raw[1];
      var length := ToInteger(field);
      ShortField(field);
      assert r == ParseArray(raw, k, length % w, length >= w, w);
      ArrayParts(raw, k, length % w, length >= w, w);
      if length < w {
        CanonicalLength(field, LIST_START);
        assert raw[..1 + k] == [raw[0]] + field;
      } else {
        NarrowedField(field, length % w, w);
        LengthSize(length % w);
      }
    }
  }

  lemma ArrayParts(raw: seq<byte>, uintlen: nat, payloadlen: nat, narrowed: bool, w: int)
    requires Addressable(raw, w) && uintlen <= 8
    requires Parse(raw, w) == ParseArray(raw, uintlen, payloadlen, narrowed, w) && Parse(raw, w).Done?
    ensures ListParts(raw, w, uintlen, payloadlen, narrowed)
    ensures Parse(raw, w).consumed == 1 + uintlen + payloadlen
  {
    hide Parse, ParseItems;
  }

  lemma ShortLength(n: nat, raw: seq<byte>)
    requires n < 56 && |raw| >= 1 && raw[0] == LIST_START + n
    ensures EncodeLength(n, LIST_START) == raw[..1]
  {
  }

  lemma LengthSize(n: nat)
    requires n >= 56
    ensures |EncodeLength(n, LIST_START)| == 1 + |EncodeBinary(n)|
  {
  }

  ghost predicate ListParts(raw: seq<byte>, w: int, uintlen: nat, payloadlen: nat, narrowed: bool)
    requires Addressable(raw, w)
  {
    && 1 + uintlen + payloadlen <= |raw|
    && var r := Parse(raw, w);
       var items := ParseItems(raw[1 + uintlen..1 + uintlen + payloadlen], w);
       && r.Done? && items.Items? && r.value == Arr(items.values) && r.narrowed == (narrowed || items.narrowed)
  }

  /** Every successful read is undone by write, up to list lengths narrowed to size_t. */
  lemma {:induction false} Canonical(raw: seq<byte>, w: int)
    requires Addressable(raw, w) && Parse(raw, w).Done?
    ensures var r := Parse(raw, w);
            Reproduces(Write(r.value), raw[..r.consumed], r.narrowed)
    decreases |raw|, 2
  {
    hide ToInteger, EncodeBinary, EncodeLength, Parse, ParseItems, Reproduces;
    var r := Parse(raw, w);
    if raw == [] {
      EmptyFails(w);
    } else if raw[0] <= 0xbf {
      CanonicalBuffer(raw, w);
      SameReproduces(raw[..r.consumed]);
    } else {
      ListHeader(raw, w);
      var uintlen: nat, payloadlen: nat, narrowed: bool :|
        && uintlen <= 8 && r.consumed == 1 + uintlen + payloadlen
        && ListParts(raw, w, uintlen, payloadlen, narrowed)
        && (!narrowed ==> raw[..1 + uintlen] == EncodeLength(payloadlen, LIST_START))
        && (narrowed ==> |EncodeLength(payloadlen, LIST_START)| < 1 + uintlen);
      var payload := raw[1 + uintlen..1 + uintlen + payloadlen];
      CanonicalItems(payload, w);
      var items := ParseItems(payload, w);
      CanonicalList(raw[..1 + uintlen], payload, WriteAll(items.values), items.narrowed, narrowed);
      assert raw[..r.consumed] == raw[..1 + uintlen] + payload;
    }
  }

  lemma EmptyFails(w: int)
    requires SizeT(w)
    ensures Parse([], w) == Fail(1)
  {
  }

  lemma SameReproduces(s: seq<byte>)
    ensures Reproduces(s, s, false)
  {
  }

  lemma {:induction false} CanonicalItems(p: seq<byte>, w: int)
    requires Addressable(p, w) && ParseItems(p, w).Items?
    ensures Reproduces(WriteAll(ParseItems(p, w).values), p, ParseItems(p, w).narrowed)
    decreases |p|, 3
  {
    hide Parse, Write, Reproduces;
    if p == [] {
      SameReproduces([]);
    } else {
      var r := Parse(p, w);
      var rest := ParseItems(p[r.consumed..], w);
      Canonical(p, w);
      CanonicalItems(p[r.consumed..], w);
      WriteAllCons(r.value, rest.values);
      ReproducesBoth(Write(r.value), p, r.consumed, r.narrowed, WriteAll(rest.values), rest.narrowed);
    }
  }

  lemma ReproducesBoth(head: seq<byte>, p: seq<byte>, n: nat, first: bool, tail: seq<byte>, others: bool)
    requires n <= |p| && Reproduces(head, p[..n], first) && Reproduces(tail, p[n..], others)
    ensures Reproduces(head + tail, p, first || others)
  {
    assert p == p[..n] + p[n..];
  }

  lemma WriteAllCons(v: RlpValue, vs: seq<RlpValue>)
    ensures WriteAll([v] + vs) == Write(v) + WriteAll(vs)
  {
    assert ([v] + vs)[1..] == vs;
  }

  /**
   * Whatever the width of size_t, the 64-bit parser reads the same from an accepted input, unless a list length was
   * narrowed on the way; then it refuses the input.
   */
  lemma {:induction false} WideParse(raw: seq<byte>, w: int)
    requires Addressable(raw, w) && Parse(raw, w).Done?
    ensures Addressable(raw, WIDE)
    ensures if Parse(raw, w).narrowed then Parse(raw, WIDE).Fail? else Parse(raw, WIDE) == Parse(raw, w)
    decreases |raw|, 2
  {
    hide ToInteger, ParseItems, ParseShortBuffer, ParseLongBuffer, ParseArray, ParseLongArray;
    if raw[0] <= 0x7f {
    } else if raw[0] <= 0xb7 {
      ShortNotNarrowed(raw);
    } else if raw[0] <= 0xbf {
      WideBuffer(raw, w);
    } else if raw[0] <= 0xf7 {
      var n: nat := raw[0] - 0xc0;
      ArrayParts(raw, 0, n, false, w);
      WideItems(raw[1..1 + n], w);
      WideArray(raw, 0, n, false, w);
    } else {
      var k, length := LongArrayParts(raw, w);
      WideItems(raw[1 + k..1 + k + length % w], w);
      WideLongArray(raw, w, k, length);
    }
  }

  /** The length field of a long list that was accepted, and the payload it was taken to announce. */
  lemma LongArrayParts(raw: seq<byte>, w: int) returns (k: nat, length: nat)
    requires Addressable(raw, w) && |raw| >= 1 && raw[0] >= 0xf8 && ParseLongArray(raw, w).Done?
    ensures k == raw[0] - 0xf7 && 1 + k <= |raw| && length == ToInteger(raw[1..1 + k]) < WIDE
    ensures 1 + k + length % w <= |raw| && 56 <= length % w
    ensures ParseLongArray(raw, w) == ParseArray(raw, k, length % w, length >= w, w)
    ensures ListParts(raw, w, k, length % w, length >= w)
  {
    hide ToInteger, ParseItems;
    k := raw[0] - 0xf7;
    length := ToInteger(raw[1..1 + k]);
    FieldBelow(raw[1..1 + k]);
    assert Parse(raw, w) == ParseArray(raw, k, length % w, length >= w, w);
    ArrayParts(raw, k, length % w, length >= w, w);
  }

  /** Seen in 64 bits a narrowed length exceeds the input, any other is the same. */
  lemma WideLongArray(raw: seq<byte>, w: int, k: nat, length: nat)
    requires Addressable(raw, w) && Addressable(raw, WIDE) && |raw| >= 1 && raw[0] >= 0xf8 && ParseLongArray(raw, w).Done?
    requires k == raw[0] - 0xf7 && 1 + k <= |raw| && length == ToInteger(raw[1..1 + k]) < WIDE
    requires 1 + k + length % w <= |raw| && 56 <= length % w
    requires ParseLongArray(raw, w) == ParseArray(raw, k, length % w, length >= w, w)
    requires var p := raw[1 + k..1 + k + length % w];
      if ParseItems(p, w).narrowed then ParseItems(p, WIDE).ItemsFail? else ParseItems(p, WIDE) == ParseItems(p, w)
    ensures if ParseLongArray(raw, w).narrowed then ParseLongArray(raw, WIDE).Fail?
            else ParseLongArray(raw, WIDE) == ParseLongArray(raw, w)
  {
    hide ToInteger, ParseItems, ParseArray;
    SmallLength(length, WIDE);
    NotShorter(length, w);
    assert ParseLongArray(raw, WIDE) == ParseArray(raw, k, length, false, WIDE);
    if length < w {
      SmallLength(length, w);
      WideArray(raw, k, length, false, w);
      ArrayNarrowed(raw, k, length, false, w);
    } else {
      TooLong(raw, k, length, false, WIDE);
      ArrayNarrowed(raw, k, length % w, true, w);
    }
  }

  lemma NotShorter(n: nat, w: int)
    requires 0 < w
    ensures n % w <= n
  {
  }

  lemma TooLong(raw: seq<byte>, uintlen: nat, payloadlen: nat, narrowed: bool, w: int)
    requires Addressable(raw, w) && uintlen <= 8 && |raw| < payloadlen
    ensures ParseArray(raw, uintlen, payloadlen, narrowed, w).Fail?
  {
  }

  lemma ArrayNarrowed(raw: seq<byte>, uintlen: nat, payloadlen: nat, narrowed: bool, w: int)
    requires Addressable(raw, w) && uintlen <= 8 && ParseArray(raw, uintlen, payloadlen, narrowed, w).Done?
    requires 1 + uintlen + payloadlen <= |raw|
    ensures ParseArray(raw, uintlen, payloadlen, narrowed, w).narrowed
         <==> narrowed || ParseItems(raw[1 + uintlen..1 + uintlen + payloadlen], w).narrowed
  {
    hide ParseItems;
  }

  lemma SmallLength(n: nat, w: int)
    requires n < w
    ensures n % w == n
  {
  }

  lemma WideBuffer(raw: seq<byte>, w: int)
    requires Addressable(raw, w) && |raw| >= 1 && 0xb8 <= raw[0] <= 0xbf && ParseLongBuffer(raw, w).Done?
    ensures Addressable(raw, WIDE) && ParseLongBuffer(raw, WIDE) == ParseLongBuffer(raw, w)
    ensures !ParseLongBuffer(raw, w).narrowed
  {
    hide ToInteger;
    var n := 1 + (raw[0] - 0xb7) + ToInteger(raw[1..1 + (raw[0] - 0xb7)]);
    SmallLength(n, w);
    SmallLength(n, WIDE);
  }

  lemma WideArray(raw: seq<byte>, uintlen: nat, payloadlen: nat, narrowed: bool, w: int)
    requires Addressable(raw, w) && uintlen <= 8 && ParseArray(raw, uintlen, payloadlen, narrowed, w).Done?
    requires Addressable(raw, WIDE) && 1 + uintlen + payloadlen <= |raw|
    requires var p := raw[1 + uintlen..1 + uintlen + payloadlen];
      if ParseItems(p, w).narrowed then ParseItems(p, WIDE).ItemsFail? else ParseItems(p, WIDE) == ParseItems(p, w)
    ensures var r, s := ParseArray(raw, uintlen, payloadlen, narrowed, w), ParseArray(raw, uintlen, payloadlen, narrowed, WIDE);
      if ParseItems(raw[1 + uintlen..1 + uintlen + payloadlen], w).narrowed then s.Fail? else s == r
  {
    hide ParseItems;
    SmallLength(1 + uintlen + payloadlen, w);
    SmallLength(1 + uintlen + payloadlen, WIDE);
  }

  lemma {:induction false} WideItems(p: seq<byte>, w: int)
    requires Addressable(p, w) && ParseItems(p, w).Items?
    ensures Addressable(p, WIDE)
    ensures if ParseItems(p, w).narrowed then ParseItems(p, WIDE).ItemsFail? else ParseItems(p, WIDE) == ParseItems(p, w)
    decreases |p|, 3
  {
    hide Parse;
    if p == [] {
    } else {
      WideParse(p, w);
      WideItems(p[Parse(p, w).consumed..], w);
    }
  }

  /**
   * A successful read is the inverse of write exactly when a parser with a 64-bit size_t accepts the same input; it then
   * reads the same from it.
   */
  lemma CanonicalExactly(raw: seq<byte>, w: int)
    requires Addressable(raw, w) && Parse(raw, w).Done?
    ensures var r := Parse(raw, w);
      && Addressable(raw, WIDE)
      && (Write(r.value) == raw[..r.consumed] <==> Parse(raw, WIDE).Done?)
      && (Parse(raw, WIDE).Done? ==> Parse(raw, WIDE) == r)
  {
    hide Parse, Write;
    Canonical(raw, w);
    WideParse(raw, w);
  }

  /** With a 64-bit size_t nothing is ever narrowed, so the parser accepts canonical encodings only. */
  lemma NeverNarrowed(raw: seq<byte>, w: int)
    requires Addressable(raw, w) && w == WIDE && Parse(raw, w).Done?
    ensures !Parse(raw, w).narrowed
  {
    hide Parse;
    WideParse(raw, w);
  }

  lemma FieldBelow(field: seq<byte>)
    requires |field| <= 8
    ensures ToInteger(field) < WIDE
  {
    hide ToInteger, Pow256;
    Pow256Values();
    ToIntegerBound(field);
    Pow256Monotone(|field|, 8);
  }

  function Singles(p: seq<byte>): seq<RlpValue> {
    if p == [] then [] else [Buf(p[..1])] + Singles(p[1..])
  }

  lemma {:induction false} ParseSingles(p: seq<byte>, w: int)
    requires Addressable(p, w) && forall i | 0 <= i < |p| :: p[i] <= 0x7f
    ensures ParseItems(p, w) == Items(Singles(p), false)
  {
    if p == [] {
    } else {
      ParseSingles(p[1..], w);
    }
  }

  /** On a 32-bit target a list of any 56 single bytes with the length field 2^32 + 56 is accepted, not canonically. */
  lemma NarrowedExample(payload: seq<byte>)
    requires |payload| == 56 && forall i | 0 <= i < 56 :: payload[i] <= 0x7f
    ensures var raw := [0xfc, 1, 0, 0, 0, 56] + payload;
            var w := 0x1_0000_0000;
            && Addressable(raw, w)
            && Parse(raw, w) == Done(Arr(Singles(payload)), 62, true)
            && Write(Arr(Singles(payload))) != raw
  {
    hide Singles, Write, ParseItems, ToInteger;
    var raw := [0xfc, 1, 0, 0, 0, 56] + payload;
    var w := 0x1_0000_0000;
    ParseSingles(payload, w);
    assert raw[1..6] == [1, 0, 0, 0, 56];
    FiveByteField();
    assert raw[6..62] == payload;
    assert Parse(raw, w) == ParseArray(raw, 5, 56, true, w);
    Canonical(raw, w);
    assert raw[..62] == raw;
  }

  lemma FiveByteField()
    ensures ToInteger([1, 0, 0, 0, 56]) == 0x1_0000_0000 + 56
  {
    assert [1, 0, 0, 0, 56][..4] == [1, 0, 0, 0];
    assert [1, 0, 0, 0][..3] == [1, 0, 0];
    assert [1, 0, 0][..2] == [1, 0];
    assert [1, 0][..1] == [1];
  }

  /** write is prefix-free: two values whose encodings start the same input are equal. */
  lemma WritePrefixFree(a: RlpValue, b: RlpValue, s: seq<byte>, t: seq<byte>, w: int)
    requires Addressable(Write(a) + s, w) && Write(a) + s == Write(b) + t
    ensures a == b && s == t
  {
    hide Parse, Write;
    RoundTrip(a, s, w);
    RoundTrip(b, t, w);
    assert s == (Write(a) + s)[|Write(a)|..];
    assert t == (Write(b) + t)[|Write(b)|..];
  }

  // ---------- the object ----------

  /** The items read so far, followed by the outcome for the rest, are the outcome for the whole payload. */
  ghost predicate Continues(all: ItemsOutcome, done: seq<RlpValue>, rest: ItemsOutcome) {
    && (all.Items? <==> rest.Items?)
    && (rest.Items? ==> all.values == done + rest.values)
  }

  lemma ContinuesStep(all: ItemsOutcome, done: seq<RlpValue>, p: seq<byte>, w: int)
    requires Addressable(p, w) && p != [] && Continues(all, done, ParseItems(p, w))
    ensures Parse(p, w).Fail? ==> all.ItemsFail?
    ensures Parse(p, w).Done? ==> Continues(all, done + [Parse(p, w).value], ParseItems(p[Parse(p, w).consumed..], w))
  {
    hide Parse;
  }

  lemma Remainder(raw: seq<byte>, from: nat, len: nat, done: nat)
    requires done <= len && from + len <= |raw|
    ensures raw[from + done..from + len] == raw[from..from + len][done..]
  {
  }

  lemma DropTwice(p: seq<byte>, i: nat, j: nat)
    requires i + j <= |p|
    ensures p[i..][j..] == p[i + j..]
  {
  }

  lemma ContinuesStart(p: seq<byte>, w: int)
    requires Addressable(p, w)
    ensures Continues(ParseItems(p, w), [], ParseItems(p, w))
  {
    hide ParseItems;
  }

  lemma ContinuesEnd(all: ItemsOutcome, done: seq<RlpValue>, w: int)
    requires SizeT(w) && Continues(all, done, ParseItems([], w))
    ensures all.Items? && all.values == done
  {
  }

  /** An RLPValue object: reading overwrites its fields; children are copied into `values`. */
  class RLPValue {
    var isArray: bool
    var value: seq<byte>
    var values: seq<RlpValue>

    constructor ()
      ensures Snapshot() == Buf([])
    {
      isArray, value, values := false, [], [];
    }

    function Snapshot(): RlpValue
      reads this
    {
      if isArray then Arr(values) else Buf(value)
    }

    method Clear()
      modifies this
      ensures Snapshot() == Buf([])
    {
      isArray, value, values := false, [], [];
    }

    /** readArray. */
    method ReadArray(raw: seq<byte>, uintlen: nat, payloadlen: nat, ghost narrowed: bool, w: int)
      returns (ok: bool, consumed: nat, wanted: nat)
      requires Addressable(raw, w) && uintlen <= 8
      modifies this
      ensures ok <==> ParseArray(raw, uintlen, payloadlen, narrowed, w).Done?
      ensures ok ==> Snapshot() == ParseArray(raw, uintlen, payloadlen, narrowed, w).value
      ensures ok ==> consumed == payloadlen
      ensures !ok ==> wanted == ParseArray(raw, uintlen, payloadlen, narrowed, w).wanted
      decreases |raw|, 0, 1
    {
      hide Parse, ParseItems;
      consumed, wanted := 0, 0;
      var expected := (1 + uintlen + payloadlen) % w;
      if expected > |raw| || payloadlen > |raw| {
        wanted := if expected > payloadlen then expected else payloadlen;
        return false, 0, wanted;
      }
      isArray, value, values := true, [], [];
      ok := ReadChildren(raw, 1 + uintlen, payloadlen, w);
      consumed := if ok then payloadlen else 0;
    }

    /** The loop of readArray: one child after the other until the payload is used up. */
    method ReadChildren(raw: seq<byte>, from: nat, payloadlen: nat, w: int) returns (ok: bool)
      requires Addressable(raw, w) && 1 <= from && from + payloadlen <= |raw| && isArray && values == []
      modifies this
      ensures isArray && (ok <==> ParseItems(raw[from..from + payloadlen], w).Items?)
      ensures ok ==> values == ParseItems(raw[from..from + payloadlen], w).values
      decreases |raw|, 0, 0
    {
      hide Parse, ParseItems, Continues;
      var childLen := payloadlen;
      var totalConsumed := 0;
      var entry := from;
      ghost var payload := raw[from..from + payloadlen];
      assert payload[0..] == payload;
      ghost var all := ParseItems(payload, w);
      ContinuesStart(payload, w);
      while childLen > 0
        invariant isArray && 0 <= childLen <= payloadlen && totalConsumed == payloadlen - childLen
        invariant entry == from + totalConsumed
        invariant Continues(all, values, ParseItems(payload[totalConsumed..], w))
        decreases childLen
      {
        var child := new RLPValue();
        ghost var rest := payload[totalConsumed..];
        Remainder(raw, from, payloadlen, totalConsumed);
        var good, childConsumed, childWanted := child.Read(raw[entry..entry + childLen], w);
        ContinuesStep(all, values, rest, w);
        if !good {
          return false;
        }
        DropTwice(payload, totalConsumed, childConsumed);
        totalConsumed := totalConsumed + childConsumed;
        entry := entry + childConsumed;
        childLen := childLen - childConsumed;
        values := values + [child.Snapshot()];
      }
      assert payload[totalConsumed..] == [];
      ContinuesEnd(all, values, w);
      return true;
    }

    /** read: the five cases, clearing the object on failure. */
    method Read(raw: seq<byte>, w: int) returns (ok: bool, consumed: nat, wanted: nat)
      requires Addressable(raw, w)
      modifies this
      ensures ok <==> Parse(raw, w).Done?
      ensures ok ==> Snapshot() == Parse(raw, w).value && consumed == Parse(raw, w).consumed
      ensures !ok ==> Snapshot() == Buf([]) && consumed == 0 && wanted == Parse(raw, w).wanted
      decreases |raw|, 2
    {
      hide ParseItems, ToInteger;
      Clear();
      ok, consumed, wanted := false, 0, 0;
      if |raw| < 1 {
        return false, 0, 1;
      }
      var ch := raw[0];
      if ch <= 0x7f {
        value := raw[..1];
        return true, 1, 0;
      } else if ch <= 0xb7 {
        ok, consumed, wanted := ReadShortBuffer(raw);
      } else if ch <= 0xbf {
        ok, consumed, wanted := ReadLongBuffer(raw, w);
      } else if ch <= 0xf7 {
        var payloadlen := ch - 0xc0;
        ok, consumed, wanted := ReadArray(raw, 0, payloadlen, false, w);
        if ok && consumed != payloadlen { ok := false; }
        consumed := 1 + payloadlen;
      } else {
        ok, consumed, wanted := ReadLongArray(raw, w);
      }
      if !ok {
        Clear();
        consumed := 0;
      }
    }

    method ReadShortBuffer(raw: seq<byte>) returns (ok: bool, consumed: nat, wanted: nat)
      requires |raw| >= 1 && 0x80 <= raw[0] <= 0xb7 && !isArray
      modifies this
      ensures ok <==> ParseShortBuffer(raw).Done?
      ensures ok ==> Snapshot() == ParseShortBuffer(raw).value && consumed == ParseShortBuffer(raw).consumed
      ensures !ok ==> wanted == ParseShortBuffer(raw).wanted
    {
      var blen := raw[0] - 0x80;
      var expected := 1 + blen;
      if |raw| < expected {
        return false, 0, expected;
      }
      if blen == 1 && raw[1] <= 0x7f {
        return false, 0, 0;
      }
      value := raw[1..1 + blen];
      return true, expected, 0;
    }

    method ReadLongBuffer(raw: seq<byte>, w: int) returns (ok: bool, consumed: nat, wanted: nat)
      requires Addressable(raw, w) && |raw| >= 1 && 0xb8 <= raw[0] <= 0xbf && !isArray
      modifies this
      ensures ok <==> ParseLongBuffer(raw, w).Done?
      ensures ok ==> Snapshot() == ParseLongBuffer(raw, w).value && consumed == ParseLongBuffer(raw, w).consumed
      ensures !ok ==> wanted == ParseLongBuffer(raw, w).wanted
    {
      hide ToInteger;
      var uintlen := raw[0] - 0xb7;
      var expected: int := 1 + uintlen;
      if |raw| < expected {
        return false, 0, expected;
      }
      if uintlen > 1 && raw[1] == 0 {
        return false, 0, 0;
      }
      var slen := ToInteger(raw[1..1 + uintlen]);
      expected := (1 + uintlen + slen) % w;
      if slen < 56 || expected > |raw| || slen > |raw| {
        wanted := (if slen > expected then slen else expected) % w;
        return false, 0, wanted;
      }
      value := raw[1 + uintlen..1 + uintlen + slen];
      return true, expected, 0;
    }

    method ReadLongArray(raw: seq<byte>, w: int) returns (ok: bool, consumed: nat, wanted: nat)
      requires Addressable(raw, w) && |raw| >= 1 && 0xf8 <= raw[0]
      modifies this
      ensures ok <==> ParseLongArray(raw, w).Done?
      ensures ok ==> Snapshot() == ParseLongArray(raw, w).value && consumed == ParseLongArray(raw, w).consumed
      ensures !ok ==> wanted == ParseLongArray(raw, w).wanted
      decreases |raw|, 1
    {
      hide ToInteger, ParseItems;
      var uintlen := raw[0] - 0xf7;
      var expected := 1 + uintlen;
      if |raw| < expected {
        return false, 0, expected;
      }
      if uintlen > 1 && raw[1] == 0 {
        return false, 0, 0;
      }
      var length := ToInteger(raw[1..1 + uintlen]);
      var payloadlen := length % w;  // the assignment to size_t
      if payloadlen < 56 {
        return false, 0, 0;
      }
      ok, consumed, wanted := ReadArray(raw, uintlen, payloadlen, length >= w, w);
      if ok && consumed != payloadlen { ok := false; }
      consumed := 1 + uintlen + payloadlen;
    }

    /** writeBuffer. */
    static method WriteBuffer(b: seq<byte>) returns (s: seq<byte>)
      ensures s == Write(Buf(b))
    {
      if |b| == 1 && b[0] < 0x80 {
        s := b;
      } else {
        s := EncodeLength(|b|, BUFFER_START) + b;
      }
    }

    /** writeArray: the children are written one after the other. */
    static method WriteArray(vs: seq<RlpValue>) returns (s: seq<byte>)
      ensures s == Write(Arr(vs))
      decreases vs, 1
    {
      hide Write;
      var tmp := [];
      assert vs[..0] == [];
      for i := 0 to |vs|
        invariant tmp == WriteAll(vs[..i])
      {
        var child := WriteValue(vs[i]);
        tmp := tmp + child;
        assert vs[..i + 1] == vs[..i] + [vs[i]];
        WriteAllSnoc(vs[..i], vs[i]);
      }
      assert vs[..|vs|] == vs;
      s := EncodeLength(|tmp|, LIST_START) + tmp;
      WriteArr(vs);
    }

    /** write. */
    static method WriteValue(v: RlpValue) returns (s: seq<byte>)
      ensures s == Write(v)
      decreases v, 0
    {
      match v
      case Buf(b) => s := WriteBuffer(b);
      case Arr(vs) => s := WriteArray(vs);
    }
  }

  lemma WriteArr(vs: seq<RlpValue>)
    ensures Write(Arr(vs)) == EncodeLength(|WriteAll(vs)|, LIST_START) + WriteAll(vs)
  {
  }

  lemma {:induction false} WriteAllSnoc(vs: seq<RlpValue>, v: RlpValue)
    ensures WriteAll(vs + [v]) == WriteAll(vs) + Write(v)
  {
    hide Write;
    if vs == [] {
      assert vs + [v] == [v];
      assert WriteAll([v]) == Write(v) + WriteAll([v][1..]);
    } else {
      assert (vs + [v])[1..] == vs[1..] + [v];
      WriteAllSnoc(vs[1..], v);
    }
  }
}
