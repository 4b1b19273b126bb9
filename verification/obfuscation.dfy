/** The message-body obfuscation of the client
    (frontend/src/utils/encryption.ts): the UTF-8 bytes of the body XORed
    with a repeating key and written as lowercase hex. Strings reach this
    module already encoded as bytes; `TextEncoder`/`TextDecoder` are not
    modelled. */
module Obfuscation {
  import opened Wrappers
  import opened JsText

  /** A `Uint8Array` element. */
  type byte = b: int | 0 <= b < 256

  /** The bitwise exclusive or of two naturals, one bit at a time from the
      lowest. */
  function BitXor(a: nat, b: nat): nat
    decreases a + b
  {
    if a == 0 && b == 0 then 0
    else 2 * BitXor(a / 2, b / 2) + (if a % 2 == b % 2 then 0 else 1)
  }

  function Pow2(k: nat): nat {
    if k == 0 then 1 else 2 * Pow2(k - 1)
  }

  /** Exclusive or keeps values within `k` bits. */
  lemma {:induction false} BitXorBelow(a: nat, b: nat, k: nat)
    requires a < Pow2(k) && b < Pow2(k)
    ensures BitXor(a, b) < Pow2(k)
    decreases k
  {
    if k > 0 && !(a == 0 && b == 0) {
      BitXorBelow(a / 2, b / 2, k - 1);
    }
  }

  /** `a ^ b` on two bytes is a byte. */
  function XorByte(a: byte, b: byte): (r: byte)
  {
    assert Pow2(8) == 256;
    BitXorBelow(a, b, 8);
    BitXor(a, b)
  }

  /** Exclusive or with the same value twice is the identity. */
  lemma {:induction false} BitXorTwice(a: nat, k: nat)
    ensures BitXor(BitXor(a, k), k) == a
    decreases a + k
  {
    if !(a == 0 && k == 0) {
      var x := BitXor(a / 2, k / 2);
      var bit := if a % 2 == k % 2 then 0 else 1;
      assert BitXor(a, k) == 2 * x + bit;
      BitXorTwice(a / 2, k / 2);
      assert (2 * x + bit) / 2 == x && (2 * x + bit) % 2 == bit;
    }
  }

  /** Exclusive or with zero is the identity. */
  lemma {:induction false} BitXorZero(a: nat)
    ensures BitXor(a, 0) == a
    decreases a
  {
    if a != 0 {
      BitXorZero(a / 2);
    }
  }

  // ---------- bytesToHex ----------

  predicate IsLowerHex(c: char) {
    '0' <= c <= '9' || 'a' <= c <= 'f'
  }

  /** `v.toString(16)` for a value below 16. */
  function HexDigit(v: nat): (c: char)
    requires v < 16
    ensures IsLowerHex(c)
  {
    if v < 10 then ('0' as int + v) as char else ('a' as int + (v - 10)) as char
  }

  /** `byte.toString(16).padStart(2, '0')`. */
  function ByteToHex(b: byte): (pair: string)
    ensures |pair| == 2 && IsLowerHex(pair[0]) && IsLowerHex(pair[1])
  {
    [HexDigit(b / 16), HexDigit(b % 16)]
  }

  /** `bytesToHex`: two lowercase hex characters per byte, in order. */
  function BytesToHex(bytes: seq<byte>): (hex: string)
    ensures |hex| == 2 * |bytes|
    ensures forall i :: 0 <= i < |hex| ==> IsLowerHex(hex[i])
  {
    if |bytes| == 0 then "" else ByteToHex(bytes[0]) + BytesToHex(bytes[1..])
  }

  // ---------- hexToBytes ----------

  /** The value of a hexadecimal digit of either case. */
  function HexValue(c: char): Option<nat> {
    if '0' <= c <= '9' then Some(c as int - '0' as int)
    else if 'a' <= c <= 'f' then Some(c as int - 'a' as int + 10)
    else if 'A' <= c <= 'F' then Some(c as int - 'A' as int + 10)
    else None
  }

  predicate AllHex(s: string) {
    forall i :: 0 <= i < |s| ==> HexValue(s[i]).Some?
  }

  function HexDigitsValue(s: string): nat
    requires AllHex(s)
  {
    if |s| == 0 then 0
    else 16 * HexDigitsValue(s[..|s| - 1]) + HexValue(s[|s| - 1]).value
  }

  /** The longest prefix of hexadecimal digits. */
  function HexPrefix(s: string): (p: string)
    ensures AllHex(p) && p <= s
  {
    if |s| == 0 || HexValue(s[0]).None? then "" else [s[0]] + HexPrefix(s[1..])
  }

  /** `s` without its leading white space. */
  function TrimStart(s: string): (t: string)
    ensures |t| <= |s|
  {
    if |s| > 0 && IsWhitespace(s[0]) then TrimStart(s[1..]) else s
  }

  /** `parseInt(s, 16)`, NaN being `None`: leading white space is skipped,
      one sign is read, a "0x"/"0X" prefix is dropped, and the longest run of
      hex digits that follows is the magnitude. */
  function ParseIntHex(s: string): Option<int> {
    var t := TrimStart(s);
    var negative := |t| > 0 && t[0] == '-';
    var u := if |t| > 0 && (t[0] == '-' || t[0] == '+') then t[1..] else t;
    var v := if |u| >= 2 && u[0] == '0' && (u[1] == 'x' || u[1] == 'X') then u[2..] else u;
    var digits := HexPrefix(v);
    if digits == "" then None
    else
      var magnitude: int := HexDigitsValue(digits);
      Some(if negative then -magnitude else magnitude)
  }

  /** Storing a number into a `Uint8Array`: NaN becomes 0, anything else is
      taken modulo 256. */
  function ToUint8(v: Option<int>): byte {
    match v
    case None => 0
    case Some(n) => (n % 256) as byte
  }

  /** `hexToBytes`: one byte per two characters. An odd trailing character
      is dropped: the array has `length / 2` (truncated) slots and the write
      past its end is ignored. */
  function HexToBytes(hex: string): (bytes: seq<byte>)
    ensures |bytes| == |hex| / 2
    decreases |hex|
  {
    if |hex| < 2 then [] else [ToUint8(ParseIntHex(hex[..2]))] + HexToBytes(hex[2..])
  }

  lemma HexValueOfDigit(v: nat)
    requires v < 16
    ensures HexValue(HexDigit(v)) == Some(v)
  {
  }

  /** Two lowercase hex digits parse to the number they spell. */
  lemma ParseHexPair(h: nat, l: nat)
    requires h < 16 && l < 16
    ensures ParseIntHex([HexDigit(h), HexDigit(l)]) == Some(16 * h + l)
  {
    var pair := [HexDigit(h), HexDigit(l)];
    HexValueOfDigit(h);
    HexValueOfDigit(l);
    assert !IsWhitespace(pair[0]);
    assert TrimStart(pair) == pair;
    assert HexPrefix(pair[1..]) == pair[1..];
    assert HexPrefix(pair) == pair;
    assert pair[..1] == [pair[0]];
    assert HexDigitsValue(pair[..1]) == h;
  }

  /** Two lowercase hex characters parse back to the byte they render. */
  lemma PairRoundTrip(b: byte)
    ensures ToUint8(ParseIntHex(ByteToHex(b))) == b
  {
    ParseHexPair(b / 16, b % 16);
  }

  /** `hexToBytes` undoes `bytesToHex`. */
  lemma {:induction false} HexRoundTrip(bytes: seq<byte>)
    ensures HexToBytes(BytesToHex(bytes)) == bytes
    decreases |bytes|
  {
    if |bytes| > 0 {
      var hex := BytesToHex(bytes);
      assert hex == ByteToHex(bytes[0]) + BytesToHex(bytes[1..]);
      assert hex[..2] == ByteToHex(bytes[0]);
      assert hex[2..] == BytesToHex(bytes[1..]);
      assert HexToBytes(hex) == [ToUint8(ParseIntHex(hex[..2]))] + HexToBytes(hex[2..]);
      PairRoundTrip(bytes[0]);
      HexRoundTrip(bytes[1..]);
      assert bytes == [bytes[0]] + bytes[1..];
    }
  }

  // ---------- The keyed XOR ----------

  /** The key byte used at position `i`: `keyBytes[i % keyBytes.length]`.
      With no key bytes the index is NaN, the element `undefined`, and
      `x ^ undefined` is `x`: the key byte acts as 0. */
  function KeyByteAt(key: seq<byte>, i: nat): byte {
    if |key| == 0 then 0 else key[i % |key|]
  }

  /** The loop shared by `encryptMessage` and `decryptMessage`. */
  function KeyedXor(data: seq<byte>, key: seq<byte>): seq<byte> {
    seq(|data|, i requires 0 <= i < |data| => XorByte(data[i], KeyByteAt(key, i)))
  }

  /** Output has the input's length, and position `i` is the input byte
      XORed with key byte `i mod |key|`; with no key bytes the data comes
      back unchanged. */
  lemma KeyedXorBytes(data: seq<byte>, key: seq<byte>)
    ensures |KeyedXor(data, key)| == |data|
    ensures |key| > 0 ==> forall i :: 0 <= i < |data| ==> KeyedXor(data, key)[i] == XorByte(data[i], key[i % |key|])
    ensures |key| == 0 ==> KeyedXor(data, key) == data
  {
    if |key| == 0 {
      forall i | 0 <= i < |data|
        ensures KeyedXor(data, key)[i] == data[i]
      {
        BitXorZero(data[i]);
      }
    }
  }

  /** XORing twice with the same key gives the input back. */
  lemma KeyedXorInvolution(data: seq<byte>, key: seq<byte>)
    ensures KeyedXor(KeyedXor(data, key), key) == data
  {
    var once := KeyedXor(data, key);
    var twice := KeyedXor(once, key);
    forall i | 0 <= i < |data|
      ensures twice[i] == data[i]
    {
      BitXorTwice(data[i], KeyByteAt(key, i));
    }
  }

  // ---------- encryptMessage / decryptMessage ----------

  /** `key || getOrCreateEncryptionKey()`: an empty key falls back to the
      stored one, which is passed in. */
  function KeyText(key: string, storedKey: string): string {
    if key == "" then storedKey else key
  }

  /** `encryptMessage` on the UTF-8 bytes of a message. */
  function EncryptMessage(message: seq<byte>, key: string, storedKey: string): (hex: string)
    ensures |hex| == 2 * |message|
    ensures forall i :: 0 <= i < |hex| ==> IsLowerHex(hex[i])
  {
    BytesToHex(KeyedXor(message, HexToBytes(KeyText(key, storedKey))))
  }

  /** `decryptMessage`, returning the bytes handed to `TextDecoder`. */
  function DecryptMessage(hex: string, key: string, storedKey: string): (bytes: seq<byte>)
    ensures |bytes| == |hex| / 2
  {
    KeyedXor(HexToBytes(hex), HexToBytes(KeyText(key, storedKey)))
  }

  /** Decrypting with the key used to encrypt gives the message bytes back,
      whatever the key text. */
  lemma DecryptEncrypt(message: seq<byte>, key: string, storedKey: string)
    ensures DecryptMessage(EncryptMessage(message, key, storedKey), key, storedKey) == message
  {
    var k := HexToBytes(KeyText(key, storedKey));
    HexRoundTrip(KeyedXor(message, k));
    KeyedXorInvolution(message, k);
  }

  /** A key text shorter than two characters yields no key bytes, and the
      "ciphertext" is then the plain hex of the message. */
  lemma ShortKeyLeavesPlaintext(message: seq<byte>, key: string, storedKey: string)
    requires |KeyText(key, storedKey)| < 2
    ensures EncryptMessage(message, key, storedKey) == BytesToHex(message)
  {
    forall i | 0 <= i < |message|
      ensures KeyedXor(message, [])[i] == message[i]
    {
      BitXorZero(message[i]);
    }
    assert KeyedXor(message, []) == message;
  }

  /** A ciphertext holds neither separator of the contract's layouts, so it
      can be stored as a message body and listed safely. */
  lemma CiphertextHasNoSeparator(message: seq<byte>, key: string, storedKey: string)
    ensures '|' !in EncryptMessage(message, key, storedKey)
    ensures ',' !in EncryptMessage(message, key, storedKey)
  {
    var hex := EncryptMessage(message, key, storedKey);
    forall i | 0 <= i < |hex|
      ensures hex[i] != '|' && hex[i] != ','
    {
      assert IsLowerHex(hex[i]);
    }
  }

  // ---------- generateKey ----------

  /** `generateKey`, the 32 random bytes passed in: 64 lowercase hex
      characters that decode to those bytes. */
  function GenerateKey(random: seq<byte>): (key: string)
    requires |random| == 32
    ensures |key| == 64
    ensures forall i :: 0 <= i < |key| ==> IsLowerHex(key[i])
    ensures HexToBytes(key) == random
  {
    HexRoundTrip(random);
    BytesToHex(random)
  }
}
