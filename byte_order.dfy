// Byte strings read as numbers in either byte order, and reverse_bytes
// (libcrypto_utils/android_pubkey.c), the in-place conversion between the two.
module ByteOrder {
  import opened Arith

  type uint8 = x: int | 0 <= x < 0x100

  /** s read back to front. */
  function Reversed<T>(s: seq<T>): (r: seq<T>)
    ensures |r| == |s|
    ensures forall i :: 0 <= i < |s| ==> r[i] == s[|s| - 1 - i]
  {
    if s == [] then [] else Reversed(s[1..]) + [s[0]]
  }

  lemma ReversedTwice<T>(s: seq<T>)
    ensures Reversed(Reversed(s)) == s
  {
  }

  /** The number whose base-256 digits are bs, least significant first. */
  function LittleEndian(bs: seq<uint8>): (r: nat)
    ensures r < Pow(256, |bs|)
  {
    if bs == [] then 0 else bs[0] + 256 * LittleEndian(bs[1..])
  }

  /** The number whose base-256 digits are bs, most significant first. */
  function BigEndian(bs: seq<uint8>): (r: nat)
    ensures r < Pow(256, |bs|)
  {
    if bs == [] then 0
    else
      var hi := BigEndian(bs[..|bs| - 1]);
      MulLe(hi, Pow(256, |bs| - 1) - 1, 256);
      256 * hi + bs[|bs| - 1]
  }

  /** The len low base-256 digits of x, least significant first. */
  function LittleEndianBytes(x: nat, len: nat): (r: seq<uint8>)
    ensures |r| == len
  {
    if len == 0 then [] else [x % 256] + LittleEndianBytes(x / 256, len - 1)
  }

  /** The len low base-256 digits of x, most significant first. */
  function BigEndianBytes(x: nat, len: nat): (r: seq<uint8>)
    ensures |r| == len
  {
    Reversed(LittleEndianBytes(x, len))
  }

  /** Reversing the bytes turns the big-endian reading into the little-endian one. */
  lemma {:induction false} BigEndianOfReversed(bs: seq<uint8>)
    ensures BigEndian(Reversed(bs)) == LittleEndian(bs)
  {
    if bs != [] {
      var r := Reversed(bs);
      assert r[..|r| - 1] == Reversed(bs[1..]);
      BigEndianOfReversed(bs[1..]);
    }
  }

  /** Digit i of the little-endian encoding is the base-256 digit of weight 256^i. */
  lemma {:induction false} LittleEndianBytesAt(x: nat, len: nat, i: nat)
    requires i < len
    ensures LittleEndianBytes(x, len)[i] == (x / Pow(256, i)) % 256
  {
    if i > 0 {
      LittleEndianBytesAt(x / 256, len - 1, i - 1);
      DivDiv(x, 256, Pow(256, i - 1));
    }
  }

  /** Encoding a value that fits in len bytes and reading it back gives the value. */
  lemma {:induction false} LittleEndianRoundTrip(x: nat, len: nat)
    requires x < Pow(256, len)
    ensures LittleEndian(LittleEndianBytes(x, len)) == x
  {
    if len > 0 {
      DivBelow(x, 256, Pow(256, len - 1));
      LittleEndianRoundTrip(x / 256, len - 1);
    }
  }

  /** Reading bytes and encoding the value at the same width gives the bytes back. */
  lemma {:induction false} LittleEndianBytesOfValue(bs: seq<uint8>)
    ensures LittleEndianBytes(LittleEndian(bs), |bs|) == bs
  {
    if bs != [] {
      var x := LittleEndian(bs);
      AddMultiple(bs[0], 256, LittleEndian(bs[1..]));
      LittleEndianBytesOfValue(bs[1..]);
    }
  }

  lemma BigEndianRoundTrip(x: nat, len: nat)
    requires x < Pow(256, len)
    ensures BigEndian(BigEndianBytes(x, len)) == x
  {
    BigEndianOfReversed(LittleEndianBytes(x, len));
    LittleEndianRoundTrip(x, len);
  }

  /** reverse_bytes: reverses buffer[start .. start+size) in place. */
  method ReverseBytes(buffer: array<uint8>, start: nat, size: nat)
    requires start + size <= buffer.Length
    modifies buffer
    ensures buffer[start..start + size] == Reversed(old(buffer[start..start + size]))
    ensures buffer[..start] == old(buffer[..start])
    ensures buffer[start + size..] == old(buffer[start + size..])
  {
    ghost var a := buffer[..];
    var i := 0;
    while i < (size + 1) / 2
      invariant 0 <= i <= (size + 1) / 2
      invariant forall j :: start <= j < start + i ==> buffer[j] == a[2 * start + size - 1 - j]
      invariant forall j :: start + size - i <= j < start + size ==> buffer[j] == a[2 * start + size - 1 - j]
      invariant forall j :: start + i <= j < start + size - i ==> buffer[j] == a[j]
      invariant buffer[..start] == a[..start] && buffer[start + size..] == a[start + size..]
    {
      var tmp := buffer[start + i];
      buffer[start + i] := buffer[start + size - i - 1];
      buffer[start + size - i - 1] := tmp;
      i := i + 1;
    }
    ReversedSlice(buffer[..], a, start, size);
  }

  lemma ReversedSlice(after: seq<uint8>, before: seq<uint8>, start: nat, size: nat)
    requires |after| == |before| && start + size <= |before|
    requires forall j :: start <= j < start + size ==> after[j] == before[2 * start + size - 1 - j]
    ensures after[start..start + size] == Reversed(before[start..start + size])
  {
    ghost var done, orig := after[start..start + size], before[start..start + size];
    forall k | 0 <= k < size
      ensures done[k] == orig[size - 1 - k]
    {
      assert done[k] == after[start + k];
    }
  }
}
