// Android's RSA public key blob (libcrypto_utils/android_pubkey.c): a packed
// record of little-endian 32-bit words holding the modulus size, the
// Montgomery constant n0inv, the modulus, the Montgomery constant rr and the
// public exponent. The big-number library calls the encoder makes are
// stated as the integers they compute.
module AndroidPubkey {
  import opened Wrappers
  import opened Arith
  import opened ByteOrder
  import opened BigNum
  import opened Rsa

  /** ANDROID_PUBKEY_MODULUS_SIZE: a 2048-bit modulus, in bytes. */
  const ModulusSize: nat := 256
  /** ANDROID_PUBKEY_MODULUS_SIZE_WORDS. */
  const ModulusSizeWords: nat := ModulusSize / 4

  /** Byte offsets of the fields of RSAPublicKey, and its size. */
  const SizeWordsOffset: nat := 0
  const N0InvOffset: nat := 4
  const ModulusOffset: nat := 8
  const RrOffset: nat := ModulusOffset + ModulusSize
  const ExponentOffset: nat := RrOffset + ModulusSize
  const StructSize: nat := ExponentOffset + 4

  /** One Newton step towards the inverse of a modulo a power of two. */
  function NewtonStep(a: int, x: int): int {
    x * (2 - a * x)
  }

  /** A Newton step doubles the number of low bits in which x inverts a. */
  lemma NewtonLift(a: int, x: int, p: int)
    requires p > 0 && (a * x - 1) % p == 0
    ensures (a * NewtonStep(a, x) - 1) % (p * p) == 0
  {
    var k := (a * x - 1) / p;
    assert a * x - 1 == k * p;
    calc {
      a * NewtonStep(a, x) - 1;
      a * x * (2 - a * x) - 1;
      -((a * x - 1) * (a * x - 1));
      -((k * p) * (k * p));
      (p * p) * (-(k * k));
    }
    AddMultiple(0, p * p, -(k * k));
  }

  /** (a * (y mod m)) mod m == (a * y) mod m. */
  lemma MulModRight(a: int, y: int, m: int)
    requires m > 0
    ensures (a * (y % m)) % m == (a * y) % m
  {
    var q, r := y / m, y % m;
    assert a * y == a * r + m * (a * q);
    AddMultiple(a * r, m, a * q);
  }

  /** BN_mod_inverse(a, 2^32) for odd a: the unique x below 2^32 with
      a * x == 1 modulo 2^32, by five Newton steps from 1. */
  function ModInverse32(a: nat): (x: nat)
    requires a % 2 == 1
    ensures x < TwoTo32 && (a * x) % TwoTo32 == 1
  {
    var x1 := NewtonStep(a, 1);
    var x2 := NewtonStep(a, x1);
    var x3 := NewtonStep(a, x2);
    var x4 := NewtonStep(a, x3);
    var x5 := NewtonStep(a, x4);
    assert (a * x5 - 1) % TwoTo32 == 0 by {
      NewtonLift(a, 1, 2);
      NewtonLift(a, x1, 4);
      NewtonLift(a, x2, 16);
      NewtonLift(a, x3, 256);
      NewtonLift(a, x4, 0x1_0000);
    }
    assert (a * (x5 % TwoTo32)) % TwoTo32 == 1 by {
      MulModRight(a, x5, TwoTo32);
      var k := (a * x5 - 1) / TwoTo32;
      assert a * x5 == 1 + TwoTo32 * k;
      AddMultiple(1, TwoTo32, k);
    }
    x5 % TwoTo32
  }

  /** The low 32 bits of an odd number are odd. */
  lemma OddLowWord(n: nat)
    requires n % 2 == 1
    ensures (n % TwoTo32) % 2 == 1
  {
    var q := n / TwoTo32;
    assert n == n % TwoTo32 + 2 * (q * (TwoTo32 / 2));
    AddMultiple(n % TwoTo32, 2, q * (TwoTo32 / 2));
  }

  /** n0inv = 2^32 - (n mod 2^32)^-1, the -1/n[0] mod 2^32 of the encoder. */
  function N0Inv(n: nat): (r: nat)
    requires n % 2 == 1
    ensures 0 < r < TwoTo32
  {
    OddLowWord(n);
    var x := ModInverse32(n % TwoTo32);
    InverseNonZero(n % TwoTo32, x, TwoTo32);
    TwoTo32 - x
  }

  /** Nothing times 0 is 1 modulo m > 1. */
  lemma InverseNonZero(a: int, x: int, m: int)
    requires m > 1 && (a * x) % m == 1
    ensures x != 0
  {
  }

  /** If n * x == 1 modulo m, then n * (m - x) == -1 modulo m. */
  lemma Complement(n: int, x: int, m: int)
    requires m > 1 && (n * x) % m == 1
    ensures (n * (m - x)) % m == m - 1
  {
    var k := (n * x) / m;
    assert n * x == k * m + 1;
    MulSub(n, m, x);
    MulSub(m, n - k, 1);
    MulSub(m, n, k);
    assert n * m == m * n && m * (n - k - 1) == (n - k - 1) * m && m * k == k * m;
    DivModUnique(n * (m - x), m, n - k - 1, m - 1);
  }

  /** The Montgomery property of n0inv: n * n0inv == -1 modulo 2^32. */
  lemma N0InvInverts(n: nat)
    requires n % 2 == 1
    ensures (n * N0Inv(n)) % TwoTo32 == TwoTo32 - 1
  {
    OddLowWord(n);
    var a := n % TwoTo32;
    var x := ModInverse32(a);
    assert (a * x) % TwoTo32 == 1;
    MulModRight(x, n, TwoTo32);
    assert x * a == a * x && x * n == n * x;
    Complement(n, x, TwoTo32);
  }

  /** rr = (2^(8M))^2 mod n, the Montgomery constant R^2 of the encoder. */
  function MontgomeryRR(n: nat): (r: nat)
    requires n > 0
    ensures r < n
  {
    Pow(2, 16 * ModulusSize) % n
  }

  /** BN_get_word: the value when it fits 64 bits, all ones otherwise. */
  function GetWord(x: nat): (r: nat)
    ensures r < TwoTo64
    ensures x < TwoTo64 ==> r == x
  {
    if x < TwoTo64 then x else TwoTo64 - 1
  }

  /** The blob android_pubkey_encode writes for modulus n and exponent e. */
  function EncodedBlob(n: nat, e: nat): (blob: seq<uint8>)
    requires n % 2 == 1
    ensures |blob| == StructSize
  {
    LittleEndianBytes(ModulusSizeWords, 4) + EncodedKey(n, e)
  }

  /** The fields after the modulus size: n0inv, the modulus, rr and the exponent. */
  function EncodedKey(n: nat, e: nat): (fields: seq<uint8>)
    requires n % 2 == 1
    ensures |fields| == StructSize - N0InvOffset
  {
    LittleEndianBytes(N0Inv(n), 4) + EncodedNumbers(n) + LittleEndianBytes(GetWord(e) % TwoTo32, 4)
  }

  /** The modulus and rr fields of the blob for modulus n. */
  function EncodedNumbers(n: nat): (fields: seq<uint8>)
    requires n > 0
    ensures |fields| == 2 * ModulusSize
  {
    LittleEndianBytes(n, ModulusSize) + LittleEndianBytes(MontgomeryRR(n), ModulusSize)
  }

  /** The modulus and the exponent a decoded key holds. */
  datatype PublicKey = PublicKey(n: nat, e: nat)

  /** What android_pubkey_decode reads from a blob: nothing when it is too
      short or announces another modulus size; otherwise the modulus and the
      exponent, both little-endian. */
  function DecodeBlob(blob: seq<uint8>): (r: Option<PublicKey>)
    ensures r.Some? <==> |blob| >= StructSize && LittleEndian(blob[SizeWordsOffset..N0InvOffset]) == ModulusSizeWords
    ensures r.Some? ==> r.value.n < Pow(256, ModulusSize) && r.value.e < TwoTo32
  {
    if |blob| < StructSize || LittleEndian(blob[SizeWordsOffset..N0InvOffset]) != ModulusSizeWords then None
    else
      var modulus, exponent := blob[ModulusOffset..RrOffset], blob[ExponentOffset..StructSize];
      assert |modulus| == ModulusSize && |exponent| == 4;
      Pow256Is2To32();
      Some(PublicKey(LittleEndian(modulus), LittleEndian(exponent)))
  }

  /** The fields of an encoded blob, at their offsets. */
  lemma EncodedFields(n: nat, e: nat)
    requires n % 2 == 1
    ensures var blob := EncodedBlob(n, e);
      && blob[SizeWordsOffset..N0InvOffset] == LittleEndianBytes(ModulusSizeWords, 4)
      && blob[N0InvOffset..ModulusOffset] == LittleEndianBytes(N0Inv(n), 4)
      && blob[ModulusOffset..RrOffset] == LittleEndianBytes(n, ModulusSize)
      && blob[RrOffset..ExponentOffset] == LittleEndianBytes(MontgomeryRR(n), ModulusSize)
      && blob[ExponentOffset..StructSize] == LittleEndianBytes(GetWord(e) % TwoTo32, 4)
  {
    FieldsAt(LittleEndianBytes(ModulusSizeWords, 4), LittleEndianBytes(N0Inv(n), 4),
      LittleEndianBytes(n, ModulusSize), LittleEndianBytes(MontgomeryRR(n), ModulusSize),
      LittleEndianBytes(GetWord(e) % TwoTo32, 4));
  }

  /** The five fields of the blob layout, laid end to end, sit at their offsets. */
  lemma FieldsAt(size: seq<uint8>, n0inv: seq<uint8>, modulus: seq<uint8>, rr: seq<uint8>, exponent: seq<uint8>)
    requires |size| == 4 && |n0inv| == 4 && |modulus| == ModulusSize && |rr| == ModulusSize && |exponent| == 4
    ensures var blob := size + (n0inv + (modulus + rr) + exponent);
      && blob[SizeWordsOffset..N0InvOffset] == size
      && blob[N0InvOffset..ModulusOffset] == n0inv
      && blob[ModulusOffset..RrOffset] == modulus
      && blob[RrOffset..ExponentOffset] == rr
      && blob[ExponentOffset..StructSize] == exponent
  {
  }

  /** Decoding an encoded blob, whatever follows it, gives back the modulus
      and the low 32 bits of the exponent: the exponent itself when it is
      below 2^32. */
  lemma DecodeEncoded(n: nat, e: nat, rest: seq<uint8>)
    requires n % 2 == 1 && n < Pow(256, ModulusSize)
    ensures DecodeBlob(EncodedBlob(n, e) + rest) == Some(PublicKey(n, GetWord(e) % TwoTo32))
    ensures e < TwoTo32 ==> DecodeBlob(EncodedBlob(n, e) + rest) == Some(PublicKey(n, e))
  {
    EncodedValues(n, e, rest);
    if e < TwoTo32 {
      DivModUnique(e, TwoTo32, 0, e);
    }
  }

  /** The size, modulus and exponent fields of an encoded blob read back as
      the values written, whatever follows the blob. */
  lemma EncodedValues(n: nat, e: nat, rest: seq<uint8>)
    requires n % 2 == 1 && n < Pow(256, ModulusSize)
    ensures var all := EncodedBlob(n, e) + rest;
      && |all| >= StructSize
      && LittleEndian(all[SizeWordsOffset..N0InvOffset]) == ModulusSizeWords
      && LittleEndian(all[ModulusOffset..RrOffset]) == n
      && LittleEndian(all[ExponentOffset..StructSize]) == GetWord(e) % TwoTo32
  {
    var blob := EncodedBlob(n, e);
    var all := blob + rest;
    EncodedFields(n, e);
    InFront(blob, rest, SizeWordsOffset, N0InvOffset);
    InFront(blob, rest, ModulusOffset, RrOffset);
    InFront(blob, rest, ExponentOffset, StructSize);
    Pow256Is2To32();
    LittleEndianRoundTrip(ModulusSizeWords, 4);
    LittleEndianRoundTrip(n, ModulusSize);
    LittleEndianRoundTrip(GetWord(e) % TwoTo32, 4);
  }

  /** The n0inv field of an encoded blob inverts -n modulo 2^32, as
      Montgomery multiplication needs. */
  lemma EncodedN0Inv(n: nat, e: nat)
    requires n % 2 == 1
    ensures (n * LittleEndian(EncodedBlob(n, e)[N0InvOffset..ModulusOffset])) % TwoTo32 == TwoTo32 - 1
  {
    EncodedFields(n, e);
    Pow256Is2To32();
    LittleEndianRoundTrip(N0Inv(n), 4);
    N0InvInverts(n);
  }

  /** The rr field of an encoded blob is R^2 reduced modulo n, when n fits the modulus field. */
  lemma EncodedRR(n: nat, e: nat)
    requires n % 2 == 1 && n < Pow(256, ModulusSize)
    ensures LittleEndian(EncodedBlob(n, e)[RrOffset..ExponentOffset]) == Pow(2, 16 * ModulusSize) % n
  {
    EncodedFields(n, e);
    LittleEndianRoundTrip(MontgomeryRR(n), ModulusSize);
  }

  /** Stores a 32-bit field in the blob, little-endian. */
  method WriteWord32(buffer: array<uint8>, offset: nat, x: nat)
    requires offset + 4 <= buffer.Length
    modifies buffer
    ensures buffer[offset..offset + 4] == LittleEndianBytes(x, 4)
    ensures buffer[..offset] == old(buffer[..offset]) && buffer[offset + 4..] == old(buffer[offset + 4..])
  {
    buffer[offset] := x % 256;
    buffer[offset + 1] := x / 256 % 256;
    buffer[offset + 2] := x / 256 / 256 % 256;
    buffer[offset + 3] := x / 256 / 256 / 256 % 256;
    assert LittleEndianBytes(x / 256 / 256 / 256, 1) == [x / 256 / 256 / 256 % 256];
    assert LittleEndianBytes(x / 256 / 256, 2) == [x / 256 / 256 % 256] + LittleEndianBytes(x / 256 / 256 / 256, 1);
    assert LittleEndianBytes(x / 256, 3) == [x / 256 % 256] + LittleEndianBytes(x / 256 / 256, 2);
    assert LittleEndianBytes(x, 4) == [x % 256] + LittleEndianBytes(x / 256, 3);
  }

  /** android_pubkey_encode_bignum: the number's M low bytes, least
      significant first, when it fits in M bytes; nothing written otherwise. */
  method EncodeBignum(num: BigNum, buffer: array<uint8>, start: nat) returns (ok: bool)
    requires Normalized(num) && start + ModulusSize <= buffer.Length
    modifies buffer
    ensures ok <==> Value(num) < Pow(256, ModulusSize)
    ensures ok ==> buffer[start..start + ModulusSize] == LittleEndianBytes(Value(num), ModulusSize)
    ensures !ok ==> buffer[..] == old(buffer[..])
    ensures buffer[..start] == old(buffer[..start])
    ensures buffer[start + ModulusSize..] == old(buffer[start + ModulusSize..])
  {
    var r := Bn2BinPadded(buffer, start, ModulusSize, num);
    if r == 0 {
      return false;
    }
    ReverseBytes(buffer, start, ModulusSize);
    ReversedTwice(LittleEndianBytes(Value(num), ModulusSize));
    return true;
  }

  /** Two adjacent slices make up the slice that spans them. */
  lemma Adjacent(s: seq<uint8>, a: nat, b: nat, c: nat)
    requires a <= b <= c <= |s|
    ensures s[a..c] == s[a..b] + s[b..c]
  {
  }

  /** A slice of the front part of a concatenation. */
  lemma InFront(s: seq<uint8>, t: seq<uint8>, a: nat, b: nat)
    requires a <= b <= |s|
    ensures (s + t)[a..b] == s[a..b]
  {
    assert (s + t)[..|s|] == s;
    assert (s + t)[a..b] == (s + t)[..|s|][a..b];
  }

  /** A slice inside a preserved prefix is preserved. */
  lemma InPrefix(s: seq<uint8>, t: seq<uint8>, k: nat, a: nat, b: nat)
    requires k <= |s| && k <= |t| && s[..k] == t[..k] && a <= b <= k
    ensures s[a..b] == t[a..b]
  {
    assert s[a..b] == s[..k][a..b] && t[a..b] == t[..k][a..b];
  }

  /** A slice inside a preserved suffix is preserved. */
  lemma InSuffix(s: seq<uint8>, t: seq<uint8>, k: nat, a: nat, b: nat)
    requires k <= a <= b <= |s| == |t| && s[k..] == t[k..]
    ensures s[a..b] == t[a..b]
  {
    forall i | 0 <= i < b - a
      ensures s[a..b][i] == t[a..b][i]
    {
      assert s[a + i] == s[k..][a + i - k] && t[a + i] == t[k..][a + i - k];
    }
  }

  /** Lines 250-259 of the encoder: the modulus and rr stored, least
      significant byte first. Neither store can fail: n is M bytes long and
      rr is below n. */
  method StoreNumbers(n: BigNum, buffer: array<uint8>)
    requires Normalized(n) && NumBytes(Value(n)) == ModulusSize && buffer.Length >= StructSize
    modifies buffer
    ensures buffer[ModulusOffset..ExponentOffset] == EncodedNumbers(Value(n))
    ensures buffer[..ModulusOffset] == old(buffer[..ModulusOffset])
    ensures buffer[ExponentOffset..] == old(buffer[ExponentOffset..])
  {
    ghost var s0 := buffer[..];
    var nValue := Value(n);
    var _ := EncodeBignum(n, buffer, ModulusOffset);
    ghost var s1 := buffer[..];
    var rrValue := MontgomeryRR(nValue);
    WordCountBound(rrValue, ModulusSize / 8);
    var _ := EncodeBignum(ToBigNum(rrValue), buffer, RrOffset);
    ghost var s2 := buffer[..];
    TwoFields(s0, s1, s2, LittleEndianBytes(nValue, ModulusSize), LittleEndianBytes(rrValue, ModulusSize));
  }

  /** Storing the modulus field and then the rr field leaves both in place
      and everything around them as it was. */
  lemma TwoFields(s0: seq<uint8>, s1: seq<uint8>, s2: seq<uint8>, modulus: seq<uint8>, rr: seq<uint8>)
    requires |s0| == |s1| == |s2| >= StructSize
    requires s1[ModulusOffset..RrOffset] == modulus
    requires s1[..ModulusOffset] == s0[..ModulusOffset] && s1[RrOffset..] == s0[RrOffset..]
    requires s2[RrOffset..ExponentOffset] == rr
    requires s2[..RrOffset] == s1[..RrOffset] && s2[ExponentOffset..] == s1[ExponentOffset..]
    ensures s2[ModulusOffset..ExponentOffset] == modulus + rr
    ensures s2[..ModulusOffset] == s0[..ModulusOffset] && s2[ExponentOffset..] == s0[ExponentOffset..]
  {
    InPrefix(s2, s1, RrOffset, ModulusOffset, RrOffset);
    InPrefix(s2, s1, RrOffset, 0, ModulusOffset);
    InSuffix(s1, s0, RrOffset, ExponentOffset, |s0|);
    Adjacent(s2, ModulusOffset, RrOffset, ExponentOffset);
  }

  /** Lines 241-262 of the encoder for an odd n: n0inv, the modulus, rr and
      the exponent stored after the modulus size. */
  method StoreKey(n: BigNum, e: BigNum, buffer: array<uint8>)
    requires Normalized(n) && NumBytes(Value(n)) == ModulusSize && Value(n) % 2 == 1
    requires Valid(e) && buffer.Length >= StructSize
    modifies buffer
    ensures buffer[N0InvOffset..StructSize] == EncodedKey(Value(n), Value(e))
    ensures buffer[..N0InvOffset] == old(buffer[..N0InvOffset])
    ensures buffer[StructSize..] == old(buffer[StructSize..])
  {
    ghost var start := buffer[..];
    var n0inv := N0Inv(Value(n));
    assert GetWord(n0inv) % TwoTo32 == n0inv by {
      DivModUnique(n0inv, TwoTo32, 0, n0inv);
    }
    WriteWord32(buffer, N0InvOffset, GetWord(n0inv) % TwoTo32);
    ghost var s1 := buffer[..];
    StoreNumbers(n, buffer);
    ghost var s2 := buffer[..];
    WriteWord32(buffer, ExponentOffset, GetWord(Value(e)) % TwoTo32);
    ghost var s3 := buffer[..];
    KeyFields(start, s1, s2, s3, LittleEndianBytes(n0inv, 4), EncodedNumbers(Value(n)),
      LittleEndianBytes(GetWord(Value(e)) % TwoTo32, 4));
  }

  /** Storing n0inv, then the modulus and rr, then the exponent leaves the
      three in place, one after the other, and everything around them as it was. */
  lemma KeyFields(s0: seq<uint8>, s1: seq<uint8>, s2: seq<uint8>, s3: seq<uint8>,
                  n0inv: seq<uint8>, numbers: seq<uint8>, exponent: seq<uint8>)
    requires |s0| == |s1| == |s2| == |s3| >= StructSize
    requires s1[N0InvOffset..ModulusOffset] == n0inv
    requires s1[..N0InvOffset] == s0[..N0InvOffset] && s1[ModulusOffset..] == s0[ModulusOffset..]
    requires s2[ModulusOffset..ExponentOffset] == numbers
    requires s2[..ModulusOffset] == s1[..ModulusOffset] && s2[ExponentOffset..] == s1[ExponentOffset..]
    requires s3[ExponentOffset..StructSize] == exponent
    requires s3[..ExponentOffset] == s2[..ExponentOffset] && s3[StructSize..] == s2[StructSize..]
    ensures s3[N0InvOffset..StructSize] == n0inv + numbers + exponent
    ensures s3[..N0InvOffset] == s0[..N0InvOffset] && s3[StructSize..] == s0[StructSize..]
  {
    InPrefix(s2, s1, ModulusOffset, N0InvOffset, ModulusOffset);
    InPrefix(s3, s2, ExponentOffset, N0InvOffset, ModulusOffset);
    InPrefix(s3, s2, ExponentOffset, ModulusOffset, ExponentOffset);
    Adjacent(s3, N0InvOffset, ModulusOffset, ExponentOffset);
    Adjacent(s3, N0InvOffset, ExponentOffset, StructSize);
    InPrefix(s2, s1, ModulusOffset, 0, N0InvOffset);
    InPrefix(s3, s2, ExponentOffset, 0, N0InvOffset);
    InSuffix(s2, s1, ExponentOffset, StructSize, |s3|);
    InSuffix(s1, s0, ModulusOffset, StructSize, |s3|);
    assert s3[StructSize..] == s3[StructSize..|s3|] && s0[StructSize..] == s0[StructSize..|s3|];
    assert s2[StructSize..] == s2[StructSize..|s3|];
  }

  /** android_pubkey_encode: fails, writing nothing, when the buffer is
      shorter than the blob or the modulus is not M bytes long; fails after
      storing the modulus size when n is even (it has no inverse modulo
      2^32); otherwise stores the whole blob and leaves the bytes after it. */
  method Encode(key: RsaKey, buffer: array<uint8>) returns (ok: bool)
    requires key.n.Some? && Normalized(key.n.value)
    requires key.e.Some? && Valid(key.e.value)
    modifies buffer
    ensures ok <==> buffer.Length >= StructSize && NumBytes(Value(key.n.value)) == ModulusSize && Value(key.n.value) % 2 == 1
    ensures ok ==> buffer[..StructSize] == EncodedBlob(Value(key.n.value), Value(key.e.value))
    ensures ok ==> buffer[StructSize..] == old(buffer[StructSize..])
    ensures buffer.Length < StructSize || NumBytes(Value(key.n.value)) != ModulusSize ==> buffer[..] == old(buffer[..])
    ensures buffer.Length >= StructSize && NumBytes(Value(key.n.value)) == ModulusSize && Value(key.n.value) % 2 == 0 ==>
      buffer[SizeWordsOffset..N0InvOffset] == LittleEndianBytes(ModulusSizeWords, 4) && buffer[N0InvOffset..] == old(buffer[N0InvOffset..])
  {
    var n := key.n.value;
    var nValue := Value(n);
    if StructSize > buffer.Length || NumBytes(nValue) != ModulusSize {
      return false;
    }
    ghost var s0 := buffer[..];
    WriteWord32(buffer, SizeWordsOffset, ModulusSizeWords);
    if nValue % 2 == 0 {
      return false;
    }
    ghost var s1 := buffer[..];
    StoreKey(n, key.e.value, buffer);
    BlobFields(s0, s1, buffer[..], LittleEndianBytes(ModulusSizeWords, 4), EncodedKey(nValue, Value(key.e.value)));
    return true;
  }

  /** Storing the modulus size and then the key fields leaves the blob in
      front and the bytes after it as they were. */
  lemma BlobFields(s0: seq<uint8>, s1: seq<uint8>, s2: seq<uint8>, size: seq<uint8>, fields: seq<uint8>)
    requires |s0| == |s1| == |s2| >= StructSize
    requires s1[SizeWordsOffset..N0InvOffset] == size && s1[N0InvOffset..] == s0[N0InvOffset..]
    requires s2[N0InvOffset..StructSize] == fields
    requires s2[..N0InvOffset] == s1[..N0InvOffset] && s2[StructSize..] == s1[StructSize..]
    ensures s2[..StructSize] == size + fields
    ensures s2[StructSize..] == s0[StructSize..]
  {
    InPrefix(s2, s1, N0InvOffset, 0, N0InvOffset);
    Adjacent(s2, 0, N0InvOffset, StructSize);
    assert s2[..StructSize] == s2[0..StructSize];
    InSuffix(s1, s0, N0InvOffset, StructSize, |s0|);
    assert s0[StructSize..] == s0[StructSize..|s0|] && s1[StructSize..] == s1[StructSize..|s0|];
  }

  /** Lines 84-86 of the decoder: the modulus field copied out, put in
      big-endian order and read as a number, which is the field read
      little-endian. */
  method ReadModulus(buffer: array<uint8>) returns (nValue: nat)
    requires buffer.Length >= StructSize
    ensures nValue == LittleEndian(buffer[ModulusOffset..RrOffset])
  {
    var modulusBuffer := new uint8[ModulusSize];
    forall i | 0 <= i < ModulusSize {
      modulusBuffer[i] := buffer[ModulusOffset + i];
    }
    ghost var modulus := buffer[ModulusOffset..RrOffset];
    assert modulusBuffer[0..ModulusSize] == modulus;
    ReverseBytes(modulusBuffer, 0, ModulusSize);
    assert modulusBuffer[..] == modulusBuffer[0..ModulusSize];
    BigEndianOfReversed(modulus);
    nValue := BigEndian(modulusBuffer[..]);
  }

  /** The decoded modulus fits ModulusSizeWords / 2 words and the exponent one. */
  lemma DecodedWords(blob: seq<uint8>)
    requires DecodeBlob(blob).Some?
    ensures |ToWords(DecodeBlob(blob).value.n)| <= ModulusSizeWords / 2
    ensures |ToWords(DecodeBlob(blob).value.e)| <= 1
  {
    var key := DecodeBlob(blob).value;
    WordCountBound(key.n, ModulusSize / 8);
    Pow256Is2To32();
    PowMonotone(256, 4, 8);
    WordCountBound(key.e, 1);
  }

  /** android_pubkey_decode: fails when the buffer is shorter than the blob
      or announces another modulus size; otherwise a new key whose modulus is
      the little-endian modulus field and whose exponent is the exponent
      field. n0inv and rr are not read. */
  method Decode(buffer: array<uint8>) returns (ok: bool, key: Option<RsaKey>)
    ensures ok <==> DecodeBlob(buffer[..]).Some?
    ensures key.Some? <==> ok
    ensures ok ==> fresh(key.value) && key.value.d.None?
    ensures ok ==> key.value.n.Some? && Normalized(key.value.n.value) && Value(key.value.n.value) == DecodeBlob(buffer[..]).value.n
    ensures ok ==> key.value.e.Some? && Normalized(key.value.e.value) && Value(key.value.e.value) == DecodeBlob(buffer[..]).value.e
  {
    ghost var blob := buffer[..];
    if buffer.Length < StructSize {
      return false, None;
    }
    var sizeWords := LittleEndian(buffer[SizeWordsOffset..N0InvOffset]);
    assert sizeWords == LittleEndian(blob[SizeWordsOffset..N0InvOffset]);
    if sizeWords != ModulusSizeWords {
      return false, None;
    }
    var nValue := ReadModulus(buffer);
    assert buffer[ModulusOffset..RrOffset] == blob[ModulusOffset..RrOffset];
    var eValue := LittleEndian(buffer[ExponentOffset..StructSize]);
    assert buffer[ExponentOffset..StructSize] == blob[ExponentOffset..StructSize];
    DecodedWords(blob);
    var rsa := new RsaKey();
    // Both arguments are non-null, so the key accepts them.
    var _ := rsa.Set0Key(Some(ToBigNum(nValue)), Some(ToBigNum(eValue)), None);
    assert buffer[..] == blob;
    return true, Some(rsa);
  }
}
