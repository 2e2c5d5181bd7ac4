// The fallback BN_bn2bin_padded of libcrypto_utils/android_pubkey.c and the
// constant-time helpers it is built from, over an OpenSSL 1.0 BIGNUM seen as
// its word array. BN_ULONG and size_t are 64-bit unsigned here (BN_BYTES == 8).
module BigNum {
  import opened Arith
  import opened Bits
  import opened ByteOrder

  type uint64 = x: int | 0 <= x < 0x1_0000_0000_0000_0000

  /** BN_BYTES: bytes per BN_ULONG word. */
  const BnBytes: nat := 8
  /** INT_MAX: top and dmax are C ints. */
  const IntMax: nat := 0x7fff_ffff

  /** A BIGNUM: the word array d of dmax words, of which the low top words hold the magnitude. */
  datatype BigNum = BigNum(d: seq<uint64>, top: nat, dmax: nat)

  predicate Valid(bn: BigNum) {
    |bn.d| == bn.dmax && bn.top <= bn.dmax <= IntMax
  }

  /** OpenSSL keeps its numbers with no leading zero word. */
  predicate Normalized(bn: BigNum) {
    Valid(bn) && (bn.top == 0 || bn.d[bn.top - 1] != 0)
  }

  /** The number whose base-2^64 digits are ws, least significant first. */
  function WordsValue(ws: seq<uint64>): nat
  {
    if ws == [] then 0 else ws[0] + TwoTo64 * WordsValue(ws[1..])
  }

  /** k words hold a value below 2^(64k). */
  lemma {:induction false} WordsValueBound(ws: seq<uint64>)
    ensures WordsValue(ws) < Pow(256, 8 * |ws|)
  {
    if ws != [] {
      var rest, p := WordsValue(ws[1..]), Pow(256, 8 * (|ws| - 1));
      WordsValueBound(ws[1..]);
      Pow256Shift8(8 * (|ws| - 1));
      MulLe(rest, p - 1, TwoTo64);
    }
  }

  /** The number a BIGNUM stands for. */
  function Value(bn: BigNum): nat
    requires Valid(bn)
  {
    WordsValue(bn.d[..bn.top])
  }

  /** Appending words adds them at the weight of the words before them. */
  lemma {:induction false} WordsValueAppend(a: seq<uint64>, b: seq<uint64>)
    ensures WordsValue(a + b) == WordsValue(a) + Pow(256, 8 * |a|) * WordsValue(b)
  {
    if a == [] {
      assert a + b == b;
    } else {
      var x, y, p := WordsValue(a[1..]), WordsValue(b), Pow(256, 8 * (|a| - 1));
      calc {
        WordsValue(a + b);
        { assert (a + b)[1..] == a[1..] + b; }
        a[0] + TwoTo64 * WordsValue(a[1..] + b);
        { WordsValueAppend(a[1..], b); }
        a[0] + TwoTo64 * (x + p * y);
        { MulAddDistrib(TwoTo64, x, p, y); }
        a[0] + TwoTo64 * x + (TwoTo64 * p) * y;
        { Pow256Shift8(8 * (|a| - 1)); }
        WordsValue(a) + Pow(256, 8 * |a|) * y;
      }
    }
  }

  /** A non-empty word string with a non-zero last word is at least the weight of that word. */
  lemma {:induction false} WordsValueLowerBound(ws: seq<uint64>)
    requires ws != [] && ws[|ws| - 1] != 0
    ensures WordsValue(ws) >= Pow(256, 8 * (|ws| - 1))
  {
    if |ws| > 1 {
      WordsValueLowerBound(ws[1..]);
      Pow256Shift8(8 * (|ws| - 2));
      MulLe(Pow(256, 8 * (|ws| - 2)), WordsValue(ws[1..]), TwoTo64);
    }
  }

  /** Bytes 0..7 of w + 2^64 * rest are those of the low word w. */
  lemma ByteOfLowWord(w: uint64, rest: nat, i: nat)
    requires i < 8
    ensures ((w + TwoTo64 * rest) / Pow(256, i)) % 256 == (w / Pow(256, i)) % 256
  {
    var p, c := Pow(256, i), Pow(256, 7 - i);
    Pow256Split(i);
    assert Pow(256, 8 - i) == 256 * c;
    MulRegroup(TwoTo64, p, 256, c, rest);
    DigitOfSum(w, p, 256, c * rest);
  }

  /** Bytes from 8 up of w + 2^64 * rest are those of rest, eight places down. */
  lemma ByteOfHighWords(w: uint64, rest: nat, i: nat)
    requires i >= 8
    ensures ((w + TwoTo64 * rest) / Pow(256, i)) % 256 == (rest / Pow(256, i - 8)) % 256
  {
    Pow256Shift8(i - 8);
    HighDigits(w, TwoTo64, rest, Pow(256, i - 8));
  }

  /** Byte i of a word string's value is byte i % 8 of word i / 8, or 0 past the last word. */
  lemma {:induction false} WordsValueByte(ws: seq<uint64>, i: nat)
    ensures (WordsValue(ws) / Pow(256, i)) % 256
         == if i / BnBytes < |ws| then (ws[i / BnBytes] / Pow(256, i % BnBytes)) % 256 else 0
  {
    if ws != [] {
      var w, rest := ws[0], WordsValue(ws[1..]);
      assert WordsValue(ws) == w + TwoTo64 * rest;
      if i < 8 {
        ByteOfLowWord(w, rest, i);
        assert i / BnBytes == 0 && i % BnBytes == i;
      } else {
        ByteOfHighWords(w, rest, i);
        WordsValueByte(ws[1..], i - 8);
        assert (i - 8) / BnBytes == i / BnBytes - 1 && (i - 8) % BnBytes == i % BnBytes;
        if i / BnBytes < |ws| {
          assert ws[1..][(i - 8) / BnBytes] == ws[i / BnBytes];
        }
      }
    }
  }

  /** The normalized word array of x, least significant word first. */
  function ToWords(x: nat): (r: seq<uint64>)
    ensures WordsValue(r) == x
    ensures r != [] ==> r[|r| - 1] != 0
  {
    if x == 0 then []
    else
      Pow256Is2To64();
      [x % TwoTo64] + ToWords(x / TwoTo64)
  }

  /** A value below 2^(64k) takes at most k words. */
  lemma WordCountBound(x: nat, k: nat)
    requires x < Pow(256, 8 * k)
    ensures |ToWords(x)| <= k
  {
    var ws := ToWords(x);
    if |ws| > k {
      WordsValueLowerBound(ws);
      PowMonotone(256, 8 * k, 8 * (|ws| - 1));
    }
  }

  /** The BIGNUM the library builds for x (BN_bin2bn, BN_set_word, BN_mod_sqr results). */
  function ToBigNum(x: nat): (bn: BigNum)
    requires |ToWords(x)| <= IntMax
    ensures Normalized(bn) && Value(bn) == x
  {
    var ws := ToWords(x);
    assert ws[..|ws|] == ws;
    BigNum(ws, |ws|, |ws|)
  }

  /** BN_num_bytes: the number of bytes x needs. */
  function NumBytes(x: nat): (r: nat)
    ensures x < Pow(256, r)
    ensures r > 0 ==> x >= Pow(256, r - 1)
  {
    if x == 0 then 0
    else
      var r' := NumBytes(x / 256);
      assert r' > 0 ==> x / 256 * 256 >= Pow(256, r' - 1) * 256 by {
        if r' > 0 {
          MulLe(Pow(256, r' - 1), x / 256, 256);
        }
      }
      1 + r'
  }

  /** With an all-zero mask the select keeps x. */
  lemma SelectMaskZero(x: nat, y: nat, n: nat)
    requires x < Pow(2, n)
    ensures Or(And(Not(0, n), x, n), And(0, y, n), n) == x
  {
    var ones := Pow(2, n) - 1;
    assert Not(0, n) == ones;
    AndOnes(x, n, n);
    AndZero(y, n);
    OrZero(x, n);
    DivModUnique(x, Pow(2, n), 0, x);
    assert And(ones, x, n) == x;
  }

  /** With an all-ones mask the select keeps y. */
  lemma SelectMaskOnes(x: nat, y: nat, n: nat)
    requires y < Pow(2, n)
    ensures Or(And(Not(Pow(2, n) - 1, n), x, n), And(Pow(2, n) - 1, y, n), n) == y
  {
    var ones := Pow(2, n) - 1;
    assert Not(ones, n) == 0;
    AndOnes(y, n, n);
    AndZero(x, n);
    OrZero(y, n);
    DivModUnique(y, Pow(2, n), 0, y);
    assert And(ones, y, n) == y;
  }

  /** constant_time_select_ulong: x when v is 1, y when v is 0, through an all-ones-or-zero mask. */
  function CtSelect(v: int, x: uint64, y: uint64): (r: uint64)
    ensures v == 1 ==> r == x
    ensures v == 0 ==> r == y
  {
    Pow2To64();
    var mask := ((v % TwoTo64) - 1) % TwoTo64;
    var r := Or(And(Not(mask, 64), x, 64), And(mask, y, 64), 64);
    OrBound(And(Not(mask, 64), x, 64), And(mask, y, 64), 64);
    assert v == 1 ==> r == x by {
      if v == 1 {
        assert mask == 0;
        SelectMaskZero(x, y, 64);
      }
    }
    assert v == 0 ==> r == y by {
      if v == 0 {
        assert mask == Pow(2, 64) - 1;
        SelectMaskOnes(x, y, 64);
      }
    }
    r
  }

  /** constant_time_le_size_t: the sign bit of x - y - 1, which is 1 exactly when x <= y. */
  function CtLe(x: uint64, y: uint64): (r: int)
    requires x < TwoTo63 && y < TwoTo63
    ensures r == if x <= y then 1 else 0
  {
    var bit := ((x - y - 1) % TwoTo64) / TwoTo63;
    SignBit(x, y);
    AndOne(bit, 64);
    And(bit, 1, 64)
  }

  /** Bit 63 of x - y - 1 computed modulo 2^64 is set exactly when x <= y. */
  lemma SignBit(x: uint64, y: uint64)
    requires x < TwoTo63 && y < TwoTo63
    ensures ((x - y - 1) % TwoTo64) / TwoTo63 == if x <= y then 1 else 0
  {
    var t := (x - y - 1) % TwoTo64;
    if x <= y {
      DivModUnique(x - y - 1, TwoTo64, -1, x - y - 1 + TwoTo64);
      DivModUnique(t, TwoTo63, 1, t - TwoTo63);
    } else {
      DivModUnique(x - y - 1, TwoTo64, 0, x - y - 1);
      DivModUnique(t, TwoTo63, 0, t);
    }
  }

  /** read_word_padded: word i of the magnitude, or 0 past top. */
  function ReadWordPadded(bn: BigNum, i: nat): (r: uint64)
    requires Valid(bn) && bn.dmax >= 1 && i < TwoTo63
    ensures r == if i < bn.top then bn.d[i] else 0
  {
    var l := bn.d[CtSelect(CtLe(bn.dmax, i), bn.dmax - 1, i)];
    CtSelect(CtLe(bn.top, i), 0, l)
  }

  /** The word-level size test of BN_bn2bin_padded: the value needs more than len bytes. */
  predicate TooBig(bn: BigNum, len: nat)
    requires Valid(bn) && bn.dmax >= 1 && len < TwoTo64
  {
    || bn.top > (len + (BnBytes - 1)) / BnBytes
    || (len % BnBytes != 0 && ReadWordPadded(bn, len / BnBytes) / Pow(256, len % BnBytes) != 0)
  }

  /** On a normalized non-zero BIGNUM the size test is exact. */
  lemma TooBigExact(bn: BigNum, len: nat)
    requires Normalized(bn) && bn.top >= 1 && len < TwoTo64
    ensures TooBig(bn, len) <==> Value(bn) >= Pow(256, len)
  {
    var ws := bn.d[..bn.top];
    var q, r := len / BnBytes, len % BnBytes;
    if bn.top > (len + (BnBytes - 1)) / BnBytes {
      WordsValueLowerBound(ws);
      PowMonotone(256, len, 8 * (bn.top - 1));
    } else if r == 0 || bn.top <= q {
      assert ReadWordPadded(bn, q) == 0 || r == 0;
      WordsValueBound(ws);
      PowMonotone(256, 8 * bn.top, len);
    } else {
      TopWordDecides(bn, len);
    }
  }

  /** When the value's top word is word len / 8, that word alone decides the fit. */
  lemma TopWordDecides(bn: BigNum, len: nat)
    requires Normalized(bn) && len < TwoTo64 && len % BnBytes != 0 && bn.top == len / BnBytes + 1
    ensures (ReadWordPadded(bn, len / BnBytes) / Pow(256, len % BnBytes) != 0) <==> Value(bn) >= Pow(256, len)
  {
    var q, r := len / BnBytes, len % BnBytes;
    var ws := bn.d[..bn.top];
    var hi := bn.d[q];
    assert ReadWordPadded(bn, q) == hi;
    assert ws == ws[..q] + [hi];
    WordsValueAppend(ws[..q], [hi]);
    assert WordsValue([hi]) == hi;
    var low, b := WordsValue(ws[..q]), Pow(256, 8 * q);
    WordsValueBound(ws[..q]);
    assert Value(bn) == low + b * hi;
    PowAdd(256, 8 * q, r);
    assert Pow(256, len) == b * Pow(256, r);
    TopDigitBelow(low, b, hi, Pow(256, r));
  }

  /** Byte i (least significant first) of a BIGNUM, as the serialising loop computes it. */
  lemma SerialisedByte(bn: BigNum, len: nat, i: nat)
    requires Valid(bn) && bn.dmax >= 1 && i < len < TwoTo64
    ensures (ReadWordPadded(bn, i / BnBytes) / Pow(256, i % BnBytes)) % 256
         == BigEndianBytes(Value(bn), len)[len - 1 - i]
  {
    var v := Value(bn);
    var l := ReadWordPadded(bn, i / BnBytes);
    var ws := bn.d[..bn.top];
    WordsValueByte(ws, i);
    if i / BnBytes < bn.top {
      assert ws[i / BnBytes] == l;
    } else {
      assert l == 0;
      assert l / Pow(256, i % BnBytes) == 0;
    }
    assert (v / Pow(256, i)) % 256 == (l / Pow(256, i % BnBytes)) % 256;
    LittleEndianBytesAt(v, len, i);
    var le := LittleEndianBytes(v, len);
    assert BigEndianBytes(v, len)[len - 1 - i] == le[i];
  }

  /**
   * BN_bn2bin_padded: writes the value as len big-endian bytes at out[start..]
   * and returns 1, or returns 0 without writing when it does not fit.
   */
  method Bn2BinPadded(out: array<uint8>, start: nat, len: nat, bn: BigNum) returns (r: int)
    requires Normalized(bn)
    requires start + len <= out.Length
    requires len + (BnBytes - 1) < TwoTo64
    modifies out
    ensures r == 1 <==> Value(bn) < Pow(256, len)
    ensures r == 0 <==> Value(bn) >= Pow(256, len)
    ensures r == 1 ==> out[start..start + len] == BigEndianBytes(Value(bn), len)
    ensures r == 0 ==> out[..] == old(out[..])
    ensures out[..start] == old(out[..start]) && out[start + len..] == old(out[start + len..])
  {
    if bn.top == 0 {
      ZeroFill(out, start, len);
      ZeroBytes(out[start..start + len], len);
      return 1;
    }
    TooBigExact(bn, len);
    if bn.top > (len + (BnBytes - 1)) / BnBytes {
      return 0;
    }
    if len % BnBytes != 0 {
      var l := ReadWordPadded(bn, len / BnBytes);
      if l / Pow(256, len % BnBytes) != 0 {
        return 0;
      }
    }
    WriteBigEndian(out, start, len, bn);
    return 1;
  }

  /** memset(out + start, 0, len). */
  method ZeroFill(out: array<uint8>, start: nat, len: nat)
    requires start + len <= out.Length
    modifies out
    ensures forall j :: start <= j < start + len ==> out[j] == 0
    ensures out[..start] == old(out[..start]) && out[start + len..] == old(out[start + len..])
  {
    var k := 0;
    while k < len
      invariant 0 <= k <= len
      invariant forall j :: start <= j < start + k ==> out[j] == 0
      invariant forall j :: 0 <= j < out.Length && !(start <= j < start + k) ==> out[j] == old(out[j])
    {
      out[start + k] := 0;
      k := k + 1;
    }
    assert out[..start] == old(out[..start]);
    assert out[start + len..] == old(out[start + len..]);
  }

  /** len zero bytes are the big-endian encoding of zero. */
  lemma ZeroBytes(bs: seq<uint8>, len: nat)
    requires |bs| == len && forall j :: 0 <= j < len ==> bs[j] == 0
    ensures bs == BigEndianBytes(0, len)
  {
    forall j | 0 <= j < len
      ensures bs[j] == BigEndianBytes(0, len)[j]
    {
      LittleEndianBytesAt(0, len, len - 1 - j);
    }
  }

  /**
   * The serialising loop of BN_bn2bin_padded: i runs down from len, and each
   * step writes byte i of the value at the next output position.
   */
  method WriteBigEndian(out: array<uint8>, start: nat, len: nat, bn: BigNum)
    requires Valid(bn) && bn.dmax >= 1
    requires start + len <= out.Length && len < TwoTo64
    modifies out
    ensures out[start..start + len] == BigEndianBytes(Value(bn), len)
    ensures out[..start] == old(out[..start]) && out[start + len..] == old(out[start + len..])
  {
    ghost var want := BigEndianBytes(Value(bn), len);
    var i := len;
    var pos := start;
    while i > 0
      invariant 0 <= i <= len && pos == start + (len - i)
      invariant forall j :: start <= j < pos ==> out[j] == want[j - start]
      invariant forall j :: 0 <= j < out.Length && !(start <= j < pos) ==> out[j] == old(out[j])
    {
      i := i - 1;
      out[pos] := ByteAt(bn, len, i);
      pos := pos + 1;
    }
    Filled(out[..], old(out[..]), start, len, want);
  }

  /** One step of that loop: byte i of the value, read from its word in constant time. */
  method ByteAt(bn: BigNum, len: nat, i: nat) returns (b: uint8)
    requires Valid(bn) && bn.dmax >= 1 && i < len < TwoTo64
    ensures b == BigEndianBytes(Value(bn), len)[len - 1 - i]
  {
    var l := ReadWordPadded(bn, i / BnBytes);
    SerialisedByte(bn, len, i);
    b := (l / Pow(256, i % BnBytes)) % 256;
  }

  /** A write confined to out[start..start + len] that put want there. */
  lemma Filled(after: seq<uint8>, before: seq<uint8>, start: nat, len: nat, want: seq<uint8>)
    requires |after| == |before| && start + len <= |after| && |want| == len
    requires forall j :: start <= j < start + len ==> after[j] == want[j - start]
    requires forall j :: 0 <= j < |after| && !(start <= j < start + len) ==> after[j] == before[j]
    ensures after[start..start + len] == want
    ensures after[..start] == before[..start] && after[start + len..] == before[start + len..]
  {
    assert after[..start] == before[..start];
    assert after[start + len..] == before[start + len..];
  }
}
