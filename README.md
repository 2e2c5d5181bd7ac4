# Property table and Android RSA public-key blob, in Dafny

This project models two pieces of the Linux port of adbd.

**The property store of `libcutils/properties_nonandroid.c`.** This is a fixed table of key/value slots. It is filled from a property file the first time any lookup runs:
- blank lines and `#` comments are skipped;
- every other line is scanned with `"%32[^=]=%92s"`;
- the first line that does not scan stops the load.

On top of the table sit:
- `property_get`, the search that returns the first matching slot or a default;
- `property_set`, which writes at the current index and moves it on;
- `property_get_bool`, `property_get_int32` and `property_get_int64`, which convert the text found, the integer ones through `strtoimax` at base 0.

The file system is a parameter. `None` stands for a file that does not open. `Some(lines)` is the successive results of `fgets` on it.

**The Android RSA public-key format of `libcrypto_utils/android_pubkey.c`.** This is a 524-byte little-endian structure:

| field | size |
|---|---|
| modulus size in 32-bit words | 4 bytes |
| n0inv = -1/n mod 2^32 | 4 bytes |
| modulus n | 256 bytes |
| rr = 2^4096 mod n | 256 bytes |
| exponent | 4 bytes |

The model covers the encoder and the decoder, `reverse_bytes`, and the fallback `BN_bn2bin_padded` with its constant-time helpers, over an OpenSSL 1.0 `BIGNUM` seen as an array of 64-bit words. It also covers the fallback `RSA_set0_key`.

## Module layout

| file | module |
|---|---|
| `arith.dfy`, `bits.dfy` | powers, division facts, and bitwise AND/OR/NOT on n-bit unsigned values |
| `byte_order.dfy` | little- and big-endian readings of byte strings, and `reverse_bytes` |
| `bignum.dfy` | BIGNUM word arrays, the constant-time helpers, `BN_bn2bin_padded` |
| `rsa.dfy` | the RSA key object and `RSA_set0_key` |
| `android_pubkey.dfy` | the blob layout, n0inv and rr, encoder and decoder |
| `property_line.dfy` | one line of the property file and its scan |
| `property_convert.dfy` | the bool and integer conversions, `strtoimax` |
| `property_table.dfy` | the table (`PropertyMap`), loading, get and set |

The C integers are unbounded integers here, with the width written out where it matters:
- `uint32_t` fields are reduced modulo 2^32;
- `BN_ULONG` and `size_t` are 64-bit;
- `intmax_t` is 64-bit.

## Model

| member | source | states |
|---|---|---|
| PropertyLine.ParseLine | libcutils/properties_nonandroid.c:67-69 | an accepted line yields a key of 1 to 32 characters other than `=`, and a value of 1 to 92 non-space characters |
| PropertyLine.ScanValue | libcutils/properties_nonandroid.c:67-68 | `%92s` after the `=`: 1 to 92 non-space characters, or no match |
| PropertyLine.ParseLineSound | libcutils/properties_nonandroid.c:67-73 | every accepted line is key, `=`, blanks, value and a rest that starts with white space unless the value hit the 92-character limit |
| PropertyLine.ParseLineComplete | libcutils/properties_nonandroid.c:67-73 | every line of that shape is accepted, with exactly that key and value (the converse of ParseLineSound) |
| PropertyLine.ScanValueOf | libcutils/properties_nonandroid.c:67-68 | `%92s` reads exactly the value out of blanks, value and rest |
| PropertyLine.TrimNewline | libcutils/properties_nonandroid.c:75-79 | removes exactly one trailing newline when there is one, and changes nothing otherwise |
| PropertyLine.TrimNewlineOfParsed | libcutils/properties_nonandroid.c:75-79 | on a value the scan produced the newline trim never fires |
| PropertyConvert.BoolFromValue | libcutils/properties_nonandroid.c:99-115 | 0 for exactly "0", "n", "no", "false", "off"; 1 for exactly "1", "y", "yes", "true", "on"; the default for anything else or a failed lookup |
| PropertyConvert.ScanNumeral | libcutils/properties_nonandroid.c:135 | the base is 8, 10 or 16; the digits start inside the text and end where the run of digits of that base starting there ends |
| PropertyConvert.ScanNumeralChooses | libcutils/properties_nonandroid.c:135 | base-0 choices: all the leading white space is skipped and no more; negative exactly after '-'; base 16 exactly when "0x" or "0X" and a hex digit follow the sign; otherwise base 8 exactly when a '0' follows it, else base 10; the digits start after the sign, and after the "0x" for base 16 |
| PropertyConvert.ScanNumeralRun | libcutils/properties_nonandroid.c:135 | every character scanned as a digit is a digit of the chosen base, and the character after them, if any, is not: the longest run is consumed |
| PropertyConvert.Clamped | libcutils/properties_nonandroid.c:135-136 | the value clamped to intmax_t, with the ERANGE flag set exactly when clamping happened |
| PropertyConvert.StrToIMax | libcutils/properties_nonandroid.c:135-136 | end within the text; nothing is consumed exactly when the scan finds no digit, and then the value is 0 with no error; otherwise end is just past the digit run; the value within intmax_t; an overflow gives INTMAX_MIN or INTMAX_MAX |
| PropertyConvert.StrToIMaxOfNumeral | libcutils/properties_nonandroid.c:135-136 | round trip for every base: after white space and an optional sign, a "0x"/"0X" hexadecimal, a '0'-led octal or a decimal numeral, followed by anything that does not extend it, is consumed exactly and read as its value, negated after '-', clamped to intmax_t |
| PropertyConvert.StrToIMaxOfDecimal | libcutils/properties_nonandroid.c:135 | strtoimax on the decimal text of n, whatever follows it, consumes exactly the numeral and yields n clamped to intmax_t |
| PropertyConvert.ImaxFromValue | libcutils/properties_nonandroid.c:129-154 | the strtoimax value exactly when the lookup found text, some of it was consumed, no overflow was flagged and the value is within [lower, upper]; the default in every other case (no text, nothing consumed, overflow, out of bounds) |
| PropertyConvert.ImaxOfNumeral | libcutils/properties_nonandroid.c:129-154 | round trip for hexadecimal, octal and decimal text: the signed value when it is within intmax_t and the bounds, the default otherwise |
| PropertyConvert.ImaxOfDecimal | libcutils/properties_nonandroid.c:129-154 | round trip: the text of n converts back to n when n is within intmax_t and the bounds, and to the default otherwise |
| PropertyConvert.Int64FromValue | libcutils/properties_nonandroid.c:157-159 | the result fits int64_t, so the cast loses nothing; it is the default or the strtoimax value |
| PropertyConvert.Int32FromValue | libcutils/properties_nonandroid.c:161-163 | the result fits int32_t, so the cast loses nothing; it is the default or the strtoimax value |
| PropertyTable.Bounded | libcutils/properties_nonandroid.c:82-83 | strncpy into a field: a prefix of the source of at most the field size, and the whole source when it fits |
| PropertyTable.FirstBadLine | libcutils/properties_nonandroid.c:59-73 | every line before it is skipped or scans, and the line at it does neither |
| PropertyTable.FirstBadLineAt | libcutils/properties_nonandroid.c:59-73 | a run of accepted lines ended by a rejected line (or the end) pins down the first rejected line |
| PropertyTable.StoredEntry | libcutils/properties_nonandroid.c:75-83 | the slot written for a scanned line fits the fields and is the scanned key and value, unchanged by the trim and the copies |
| PropertyTable.StoreLinesStep | libcutils/properties_nonandroid.c:59-84 | one more line changes the table only at its own slot, and only when it is not skipped |
| PropertyTable.LoadFile | libcutils/properties_nonandroid.c:41-89 | success exactly when the file opens and every line is skipped or scans; index is the last line's slot on success and 0 on failure; line L is in slot L-1 up to the first bad line; every other slot keeps its entry |
| PropertyTable.FirstMatch | libcutils/properties_nonandroid.c:196-201 | the first slot in range whose key agrees with the key on 32 characters; None when no slot in range does |
| PropertyTable.Lookup | libcutils/properties_nonandroid.c:191-214 | -1 exactly when the load failed or the key is null; a returned length equals the length of the text written, at most 92; with a default or a matching slot something is written; with no matching slot and no default the result is 0 and nothing is written |
| PropertyTable.LookupFindsFirst | libcutils/properties_nonandroid.c:196-200 | the first matching slot's value is what property_get returns |
| PropertyTable.LookupMissing | libcutils/properties_nonandroid.c:203-213 | with no matching slot the default is written, cut to 91 characters, and unchanged when shorter; with no default the result is 0 and the buffer is left untouched |
| PropertyTable.FirstMatchAfterSet | libcutils/properties_nonandroid.c:196-201 | after a slot is written with the key at index, the search up to index+1 finds an earlier match if one exists, and otherwise that slot |
| PropertyTable.SetThenGet | libcutils/properties_nonandroid.c:165-170 | property_set then property_get on the same key returns the value just set (cut to the field) unless an earlier slot holds the key |
| PropertyTable.SetOverwritesLastLoaded | libcutils/properties_nonandroid.c:165-170 | as written: after a successful load whose last line scans, property_set writes that line's slot, and a key only that line set then reads as missing (the default) |
| PropertyTable.LoadedLast | libcutils/properties_nonandroid.c:82-87 | after a successful load the index is the last line's slot, which holds that line's entry |
| PropertyTable.OverwriteLast | libcutils/properties_nonandroid.c:167-170 | writing slot index with another key and searching up to index+1 loses a key only slot index held |
| PropertyTable.Appended | libcutils/properties_nonandroid.c:167-170 | corrected property_set: the pair goes into slot index+1, every slot up to index is kept, and the new slot fits the fields and matches the key |
| PropertyTable.FirstMatchAppended | libcutils/properties_nonandroid.c:196-201 | searching one slot further after writing it: the old search decides when it finds the key, else the new slot when it matches, else nothing |
| PropertyTable.AppendThenGet | libcutils/properties_nonandroid.c:165-214 | after the corrected property_set every other key reads exactly as before, and the key set reads the new value unless an earlier slot holds it |
| PropertyTable.PropertyMap.constructor | libcutils/properties_nonandroid.c:34-38 | the zero-initialised table, index -1 |
| PropertyTable.PropertyMap.EnsureLoaded | libcutils/properties_nonandroid.c:41-89 | once loaded (index >= 0) succeeds with nothing changed; otherwise the table and index become LoadFile's outcome |
| PropertyTable.PropertyMap.StoreFile | libcutils/properties_nonandroid.c:59-84 | the loop stores line L in slot L-1 up to the first bad line, and reports success exactly when there is none |
| PropertyTable.PropertyMap.StoreLine | libcutils/properties_nonandroid.c:60-83 | one pass: accepts exactly skipped or scanning lines, and writes the scanned entry into its slot and nothing else |
| PropertyTable.PropertyMap.Get | libcutils/properties_nonandroid.c:191-214 | loads when needed, then returns Lookup on the loaded table |
| PropertyTable.PropertyMap.Set | libcutils/properties_nonandroid.c:165-175 | as written: below the last slot, writes the truncated pair at index (not index+1), advances index and returns 0; otherwise returns -1 with nothing changed |
| PropertyTable.PropertyMap.GetBool | libcutils/properties_nonandroid.c:91-116 | a null key gives the default without loading; otherwise BoolFromValue of what property_get(key, buf, "") leaves |
| PropertyTable.PropertyMap.GetIMax | libcutils/properties_nonandroid.c:119-155 | a null key gives the default without loading; otherwise ImaxFromValue of the text found |
| PropertyTable.PropertyMap.GetInt64 | libcutils/properties_nonandroid.c:157-159 | property_get_imax with the int64_t bounds; the result fits int64_t |
| PropertyTable.PropertyMap.GetInt32 | libcutils/properties_nonandroid.c:161-163 | property_get_imax with the int32_t bounds; the result fits int32_t |
| ByteOrder.ReverseBytes | libcrypto_utils/android_pubkey.c:56-63 | the slice becomes its reverse, and the bytes around it are unchanged |
| ByteOrder.ReversedTwice | libcrypto_utils/android_pubkey.c:56-63 | reversing twice gives the bytes back |
| ByteOrder.BigEndianOfReversed | libcrypto_utils/android_pubkey.c:83-86 | the big-endian reading of the reversed bytes is the little-endian reading of the bytes |
| ByteOrder.LittleEndianRoundTrip | libcrypto_utils/android_pubkey.c:34-37 | writing a value that fits as little-endian bytes and reading it back gives the value |
| ByteOrder.LittleEndianBytesOfValue | libcrypto_utils/android_pubkey.c:34-37 | reading bytes as little-endian and writing the value back at the same width gives the bytes |
| ByteOrder.BigEndianRoundTrip | libcrypto_utils/android_pubkey.c:86 | writing a value that fits as big-endian bytes and reading it back gives the value |
| BigNum.ToBigNum | libcrypto_utils/android_pubkey.c:86 | the BIGNUM built for x is normalized and stands for x |
| BigNum.NumBytes | libcrypto_utils/android_pubkey.c:233-234 | RSA_size: the least byte count whose range holds the value |
| BigNum.CtSelect | libcrypto_utils/android_pubkey.c:125-130 | x when v is 1 and y when v is 0 |
| BigNum.CtLe | libcrypto_utils/android_pubkey.c:134-136 | 1 exactly when x <= y, for arguments below 2^63 |
| BigNum.SignBit | libcrypto_utils/android_pubkey.c:134-136 | bit 63 of x - y - 1 modulo 2^64 is set exactly when x <= y |
| BigNum.ReadWordPadded | libcrypto_utils/android_pubkey.c:143-150 | word i of the magnitude, or 0 past top |
| BigNum.TooBigExact | libcrypto_utils/android_pubkey.c:162-172 | the two early-exit size tests fire exactly when the value needs more than len bytes |
| BigNum.SerialisedByte | libcrypto_utils/android_pubkey.c:181-185 | the byte the loop computes at step i is byte len-1-i of the big-endian encoding |
| BigNum.Bn2BinPadded | libcrypto_utils/android_pubkey.c:152-187 | returns 1 exactly when the value fits len bytes and then writes its big-endian encoding; returns 0 with nothing written otherwise |
| BigNum.ZeroFill | libcrypto_utils/android_pubkey.c:157-159 | zeroes exactly the len bytes at start |
| BigNum.WriteBigEndian | libcrypto_utils/android_pubkey.c:181-186 | the loop writes the big-endian encoding of the value and nothing outside it |
| BigNum.ByteAt | libcrypto_utils/android_pubkey.c:183-184 | one step of the loop yields byte len-1-i of the big-endian encoding |
| Rsa.RsaKey.constructor | libcrypto_utils/android_pubkey.c:70 | RSA_new: no field set |
| Rsa.RsaKey.Set0Key | libcrypto_utils/android_pubkey.c:197-208 | refuses, changing nothing, when n or e would stay null; otherwise installs exactly the non-null arguments and returns 1 |
| AndroidPubkey.ModInverse32 | libcrypto_utils/android_pubkey.c:242-244 | BN_mod_inverse modulo 2^32 of an odd number: a result below 2^32 whose product with the input is 1 modulo 2^32 |
| AndroidPubkey.N0Inv | libcrypto_utils/android_pubkey.c:241-247 | n0inv = 2^32 - (n mod 2^32)^-1 lies strictly between 0 and 2^32, so the 32-bit store keeps it |
| AndroidPubkey.N0InvInverts | libcrypto_utils/android_pubkey.c:241-247 | n * n0inv == -1 modulo 2^32, the Montgomery parameter the field comment promises |
| AndroidPubkey.MontgomeryRR | libcrypto_utils/android_pubkey.c:254-256 | rr = (2^2048)^2 mod n, below n |
| AndroidPubkey.GetWord | libcrypto_utils/android_pubkey.c:262 | BN_get_word: the value when it fits 64 bits, and below 2^64 always |
| AndroidPubkey.EncodedBlob | libcrypto_utils/android_pubkey.c:38-53 | the encoded blob is exactly sizeof(RSAPublicKey) = 524 bytes |
| AndroidPubkey.EncodedFields | libcrypto_utils/android_pubkey.c:38-53 | each field of the encoded blob sits at its struct offset with its little-endian value |
| AndroidPubkey.DecodeBlob | libcrypto_utils/android_pubkey.c:65-118 | a key exactly when the blob has at least 524 bytes and announces 64 modulus words; the modulus fits 256 bytes and the exponent 32 bits |
| AndroidPubkey.DecodeEncoded | libcrypto_utils/android_pubkey.c:65-118 | round trip: decoding an encoded blob, whatever follows it, gives back n and GetWord(e) mod 2^32: the low 32 bits of e when e < 2^64 (e itself below 2^32), and 0xFFFFFFFF above, where BN_get_word saturates |
| AndroidPubkey.EncodedValues | libcrypto_utils/android_pubkey.c:38-53 | the size, modulus and exponent fields of an encoded blob read back as the values written |
| AndroidPubkey.EncodedN0Inv | libcrypto_utils/android_pubkey.c:42-43 | the n0inv field of an encoded blob satisfies n * n0inv == -1 modulo 2^32 |
| AndroidPubkey.EncodedRR | libcrypto_utils/android_pubkey.c:48-49 | the rr field of an encoded blob reads as R^2 mod n |
| AndroidPubkey.WriteWord32 | libcrypto_utils/android_pubkey.c:238-239 | a 32-bit field stored little-endian, with every other byte unchanged |
| AndroidPubkey.EncodeBignum | libcrypto_utils/android_pubkey.c:212-223 | succeeds exactly when the number fits 256 bytes, and then stores it little-endian; otherwise writes nothing |
| AndroidPubkey.StoreNumbers | libcrypto_utils/android_pubkey.c:249-259 | the modulus and rr fields hold n and R^2 mod n little-endian; the bytes around them are unchanged |
| AndroidPubkey.StoreKey | libcrypto_utils/android_pubkey.c:241-262 | the fields after the size word hold n0inv, n, rr and GetWord(e) mod 2^32 (the low 32 bits of e when e < 2^64, 0xFFFFFFFF above); the bytes around them are unchanged |
| AndroidPubkey.Encode | libcrypto_utils/android_pubkey.c:225-272 | succeeds exactly when the buffer holds 524 bytes, n is 256 bytes long and n is odd; then writes EncodedBlob and leaves the rest; a short buffer or a wrong size writes nothing; an even n leaves only the size word written |
| AndroidPubkey.ReadModulus | libcrypto_utils/android_pubkey.c:83-86 | copying, reversing and reading big-endian gives the little-endian value of the modulus field |
| AndroidPubkey.Decode | libcrypto_utils/android_pubkey.c:65-118 | succeeds exactly when DecodeBlob does; then returns a fresh key whose n and e are normalized and stand for the decoded modulus and exponent, with d unset |

## Left out

- File I/O: `fopen`, `fgets` and `fclose` are replaced by the file parameter (`None` when the file does not open). The split of long lines into several `fgets` chunks is the caller's to supply as separate lines.
- Logging (`ALOGI`, `ALOGE`, `ALOGV`, `printf`) and the saving and restoring of `errno` have no effect on results and are not modelled.
- The code after `return 0` in `property_set` (lines 177-188) is unreachable and is not modelled.
- `property_list` and `property_list_callback` are not modelled: the callback is compiled out (`#if 0`, lines 222-232), and `property_list` (lines 233-243) returns 0 without doing anything.
- `cutils/properties.h` is not part of this model. PROPERTY_KEY_MAX = 32 and PROPERTY_VALUE_MAX = PROP_VALUE_MAX = 92 are Android's values. PROPERTY_MAX_ENTRY is the `capacity` argument of the table's constructor.
- PropertyTable.PropertyMap.Set: requires a loaded table (index >= 0). At index -1 the source writes before the start of the array, which is undefined behaviour.
- PropertyTable.PropertyMap.EnsureLoaded: requires a file of at most `capacity` lines when a load is due (FileFits). With a longer file the source writes past the end of the array when a line beyond the capacity is stored. When all such lines are skipped, the index ends beyond the capacity and `property_get` reads past the end. The same precondition is on Get and the typed getters.
- A value of exactly 92 characters fills the value field with no terminator. `strncpy` at line 198 copies those 92 characters into the caller's 92-byte buffer, also without a terminator, and `strlen` at line 199 then reads past the end of that buffer, which is undefined behaviour. The model returns the 92 characters and their length.
- Embedded NUL characters in lines, keys or values are not modelled; strings are character sequences.
- The table is a process-wide static shared without locking. Concurrency is not modelled.
- OpenSSL internals are abstracted:
  - `BN_bin2bn`, `BN_set_word` and `BN_mod_sqr` results are the normalized word array of the value (`ToBigNum`);
  - `BN_mod_inverse` modulo 2^32 is computed by Newton iteration and specified by its defining property;
  - allocation failures (`RSA_new`, `BN_new`, `BN_CTX_new`) are not modelled.
- The `BN_bn2binpad` branch for newer OpenSSL (line 216) is not modelled. The fallback `BN_bn2bin_padded` is. The two agree on every number that fits 256 bytes, which is every number the encoder passes (RSA_size is checked first, and rr is below n); for a number that does not fit, `BN_bn2binpad` returns -1, which the `!` test at that line does not catch.
- Preprocessor selection between the fallbacks and the library versions is not modelled; the fallbacks are always used.
- The decoder's `RSA_set0_key` failure branch is unreachable, because both arguments are non-null, and is not modelled as a separate path.
- The struct cast assumes a little-endian host, as the source's comment states. The model writes the little-endian byte order out explicitly.
- BigNum.Bn2BinPadded: requires len + 7 < 2^64. Beyond that the source's word-count computation wraps around; the only caller passes 256.
- The constant-time behaviour of the helpers (no secret-dependent branches) is not modelled; only their values are.

## Findings

| source | as written | input that shows it | evidently intended | confidence | as-written member | corrected member |
|---|---|---|---|---|---|---|
| libcutils/properties_nonandroid.c:167-170 | property_set writes slot property_map_current_index and then increments it, but after a load that index is already the slot of the file's last line | property file "a=1\nb=2\n" (index 1 after the load), then property_set("c", "3"); property_get("b", buf, "") now returns 0 and leaves "" instead of "2" | write slot index+1, then advance the index; the guard index < PROPERTY_MAX_ENTRY - 1 then keeps the write inside the array, and index -1 writes slot 0 | high, not executed | PropertyTable.SetOverwritesLastLoaded | PropertyTable.Appended |
