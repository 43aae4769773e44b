/**
 * The decoder for Cloudflare's obfuscated e-mail addresses
 * (`decode_cfemail`): the first hex byte is a key, every later hex byte
 * XOR the key is one character. Any exception inside the decoder makes it
 * return the empty string, so every failure is modelled as `None` inside and
 * `""` at the boundary.
 */
module CfEmail {
  import opened Wrappers
  import opened Text

  predicate IsHexDigit(c: char) {
    '0' <= c <= '9' || 'a' <= c <= 'f' || 'A' <= c <= 'F'
  }

  function HexValue(c: char): (v: nat)
    requires IsHexDigit(c)
    ensures v < 16
  {
    if '0' <= c <= '9' then c as int - '0' as int
    else if 'a' <= c <= 'f' then c as int - 'a' as int + 10
    else c as int - 'A' as int + 10
  }

  /** The whitespace `int()` skips around its digits. An all-ASCII argument is
      scanned as it is, so only ASCII ` \t\n\v\f\r` counts there; a non-ASCII
      whitespace character is first turned into a space. The ASCII separators
      `\x1c`..`\x1f` are therefore not skipped, although `str.isspace()`
      accepts them. */
  predicate IsIntSpace(c: char) {
    IsSpace(c) && !(0x1C <= c as int <= 0x1F)
  }

  /** Python's `int(t, 16)` on a slice of at most two characters, or `None`
      where it raises `ValueError`. Surrounding whitespace and a sign are
      accepted; a `0x` prefix or an underscore needs more room than two
      characters leave for digits, so it always fails here. */
  function ParseHexSlice(t: string): (r: Option<int>)
    requires |t| <= 2
    ensures r.Some? ==> -15 <= r.value <= 255
  {
    var b := if |t| == 2 && IsIntSpace(t[0]) then t[1..]
             else if |t| == 2 && IsIntSpace(t[1]) then t[..1]
             else t;
    if |b| == 1 && IsHexDigit(b[0]) then Some(HexValue(b[0]))
    else if |b| == 2 && IsHexDigit(b[0]) && IsHexDigit(b[1]) then Some(16 * HexValue(b[0]) + HexValue(b[1]))
    else if |b| == 2 && b[0] == '+' && IsHexDigit(b[1]) then Some(HexValue(b[1]))
    else if |b| == 2 && b[0] == '-' && IsHexDigit(b[1]) then Some(-(HexValue(b[1]) as int))
    else None
  }

  /** Bitwise XOR of two naturals, one bit at a time from the lowest. */
  function Xor(x: nat, y: nat): nat
    decreases x + y
  {
    if x == 0 && y == 0 then 0
    else 2 * Xor(x / 2, y / 2) + (if x % 2 == y % 2 then 0 else 1)
  }

  function Pow2(n: nat): (p: nat)
    ensures p >= 1
  {
    if n == 0 then 1 else 2 * Pow2(n - 1)
  }

  lemma {:induction false} XorBelow(x: nat, y: nat, n: nat)
    requires x < Pow2(n) && y < Pow2(n)
    ensures Xor(x, y) < Pow2(n)
  {
    if n > 0 && !(x == 0 && y == 0) {
      XorBelow(x / 2, y / 2, n - 1);
    }
  }

  /** Bitwise XOR of two bytes. */
  function Xor8(x: nat, y: nat): (r: nat)
    requires x < 256 && y < 256
    ensures r < 256
  {
    assert Pow2(8) == 256;
    XorBelow(x, y, 8);
    Xor(x, y)
  }

  /** Python's `^` on two integers in (-256, 256): two's complement of
      unbounded width, where `~x == -x - 1`. */
  function PyXor(a: int, b: int): (r: int)
    requires -256 < a < 256 && -256 < b < 256
    ensures -256 <= r < 256
    ensures r >= 0 <==> (a >= 0 <==> b >= 0)
  {
    if a >= 0 && b >= 0 then Xor8(a, b)
    else if a < 0 && b < 0 then Xor8(-a - 1, -b - 1)
    else if a < 0 then -(Xor8(-a - 1, b) as int) - 1
    else -(Xor8(a, -b - 1) as int) - 1
  }

  function Min(a: int, b: int): int { if a <= b then a else b }

  /** `encoded_string[i:i+2]`. */
  function Slice2(s: string, i: nat): (t: string)
    requires i <= |s|
    ensures |t| <= 2
  {
    s[i..Min(i + 2, |s|)]
  }

  /** The character for slice `i`, or `None` where `int()` or `chr()` raises
      (`chr` of a negative number). */
  function CharAt(s: string, i: nat, key: int): Option<char>
    requires i <= |s| && -256 < key < 256
  {
    match ParseHexSlice(Slice2(s, i))
    case None => None
    case Some(b) =>
      var code := PyXor(b, key);
      if code < 0 then None else Some(code as char)
  }

  ghost predicate PairOk(s: string, i: nat, key: int)
    requires i <= |s| && -256 < key < 256
  {
    CharAt(s, i, key).Some?
  }

  /** The generator over `range(i, len(s), 2)`, joined; `None` as soon as one
      element raises. */
  function DecodeFrom(s: string, i: nat, key: int): (r: Option<string>)
    requires -256 < key < 256
    ensures r.Some? && i < |s| ==> |r.value| == (|s| - i + 1) / 2
    ensures r.Some? && i >= |s| ==> r.value == []
    ensures r.Some? ==> forall j :: 0 <= j < |r.value| ==> r.value[j] as int < 256
    decreases |s| - i
  {
    if i >= |s| then Some([])
    else match CharAt(s, i, key)
      case None => None
      case Some(c) =>
        match DecodeFrom(s, i + 2, key)
        case None => None
        case Some(rest) => Some([c] + rest)
  }

  /** `decode_cfemail`. */
  function DecodeCfEmail(s: string): (r: string)
    ensures |s| <= 2 ==> r == []
    ensures |r| <= |s| / 2
    ensures forall j :: 0 <= j < |r| ==> r[j] as int < 256
  {
    match ParseHexSlice(Slice2(s, 0))
    case None => ""
    case Some(key) =>
      match DecodeFrom(s, 2, key)
      case None => ""
      case Some(email) => email
  }

  // ---------------------------------------------------------------------
  // Encoding: the obfuscation the decoder reverses

  const HexDigits: string := "0123456789abcdef"

  /** A byte as two lower-case hex digits. */
  function Hex2(x: nat): string
    requires x < 256
  {
    [HexDigits[x / 16], HexDigits[x % 16]]
  }

  predicate IsByteString(s: string) {
    forall i :: 0 <= i < |s| ==> s[i] as int < 256
  }

  function EncodeBody(key: nat, email: string): string
    requires key < 256 && IsByteString(email)
  {
    if email == [] then []
    else Hex2(Xor8(email[0] as int, key)) + EncodeBody(key, email[1..])
  }

  /** What the page holds in `data-cfemail`: the key byte, then every
      character XOR the key, all as hex. */
  function EncodeCfEmail(key: nat, email: string): string
    requires key < 256 && IsByteString(email)
  {
    Hex2(key) + EncodeBody(key, email)
  }

  lemma HexDigitValue(d: nat)
    requires d < 16
    ensures IsHexDigit(HexDigits[d]) && HexValue(HexDigits[d]) == d
  {
    if d < 10 {
      assert HexDigits[d] as int == '0' as int + d;
    } else {
      assert HexDigits[d] as int == 'a' as int + d - 10;
    }
  }

  lemma Hex2Parses(x: nat)
    requires x < 256
    ensures ParseHexSlice(Hex2(x)) == Some(x)
  {
    var t := Hex2(x);
    HexDigitValue(x / 16);
    HexDigitValue(x % 16);
    assert !IsIntSpace(t[0]) && !IsIntSpace(t[1]);
  }

  /** XOR with the same key twice is the identity. */
  lemma {:induction false} XorTwice(x: nat, k: nat)
    ensures Xor(Xor(x, k), k) == x
    decreases x + k
  {
    if !(x == 0 && k == 0) {
      var z := Xor(x, k);
      assert z / 2 == Xor(x / 2, k / 2) && z % 2 == (if x % 2 == k % 2 then 0 else 1);
      XorTwice(x / 2, k / 2);
    }
  }

  lemma {:induction false} DecodeBody(prefix: string, key: nat, email: string)
    requires key < 256 && IsByteString(email)
    ensures DecodeFrom(prefix + EncodeBody(key, email), |prefix|, key) == Some(email)
    decreases |email|
  {
    var s := prefix + EncodeBody(key, email);
    if email != [] {
      var x := Xor8(email[0] as int, key);
      var prefix' := prefix + Hex2(x);
      assert s == prefix' + EncodeBody(key, email[1..]);
      assert Slice2(s, |prefix|) == Hex2(x);
      Hex2Parses(x);
      XorTwice(email[0] as int, key);
      assert Xor8(x, key) == email[0] as int;
      assert CharAt(s, |prefix|, key) == Some(email[0]);
      DecodeBody(prefix', key, email[1..]);
      assert [email[0]] + email[1..] == email;
    } else {
      assert |s| == |prefix|;
    }
  }

  /** Decoding undoes the obfuscation, for every key and every string of
      byte-sized characters. */
  lemma DecodeEncode(key: nat, email: string)
    requires key < 256 && IsByteString(email)
    ensures DecodeCfEmail(EncodeCfEmail(key, email)) == email
  {
    var s := EncodeCfEmail(key, email);
    assert Slice2(s, 0) == Hex2(key);
    Hex2Parses(key);
    DecodeBody(Hex2(key), key, email);
  }

  // ---------------------------------------------------------------------
  // Inputs made of hex digits only

  predicate AllHex(s: string) {
    forall i :: 0 <= i < |s| ==> IsHexDigit(s[i])
  }

  /** The value of the one- or two-digit slice at `i` of an all-hex string. */
  function HexByteAt(s: string, i: nat): (v: nat)
    requires AllHex(s) && i < |s|
    ensures v < 256
  {
    if i + 1 < |s| then 16 * HexValue(s[i]) + HexValue(s[i + 1]) else HexValue(s[i])
  }

  lemma SliceOfAllHex(s: string, i: nat, key: nat)
    requires AllHex(s) && i < |s| && key < 256
    ensures CharAt(s, i, key) == Some(Xor8(HexByteAt(s, i), key) as char)
  {
    var t := Slice2(s, i);
    assert IsHexDigit(t[0]) && !IsIntSpace(t[0]) && t[0] == s[i];
    if i + 1 < |s| {
      assert |t| == 2 && IsHexDigit(t[1]) && !IsIntSpace(t[1]) && t[1] == s[i + 1];
    } else {
      assert |t| == 1;
    }
    assert ParseHexSlice(t) == Some(HexByteAt(s, i));
  }

  lemma {:induction false} DecodeFromAllHex(s: string, i: nat, key: nat)
    requires AllHex(s) && key < 256
    ensures DecodeFrom(s, i, key).Some?
    ensures forall j :: 0 <= j < |DecodeFrom(s, i, key).value| ==>
      DecodeFrom(s, i, key).value[j] as int == Xor8(HexByteAt(s, i + 2 * j), key)
  {
    DecodeFromAllHexSome(s, i, key);
    forall j | 0 <= j < |DecodeFrom(s, i, key).value|
      ensures DecodeFrom(s, i, key).value[j] as int == Xor8(HexByteAt(s, i + 2 * j), key)
    {
      DecodeFromAllHexAt(s, i, key, j);
    }
  }

  /** No slice of an all-hex string makes the decoder raise. */
  lemma {:induction false} DecodeFromAllHexSome(s: string, i: nat, key: nat)
    requires AllHex(s) && key < 256
    ensures DecodeFrom(s, i, key).Some?
    decreases |s| - i
  {
    if i < |s| {
      SliceOfAllHex(s, i, key);
      DecodeFromAllHexSome(s, i + 2, key);
    }
  }

  /** Character `j` of the decoding from `i` is hex byte `i + 2j` XOR the key. */
  lemma {:induction false} DecodeFromAllHexAt(s: string, i: nat, key: nat, j: nat)
    requires AllHex(s) && key < 256
    requires DecodeFrom(s, i, key).Some? && j < |DecodeFrom(s, i, key).value|
    ensures i + 2 * j < |s|
    ensures DecodeFrom(s, i, key).value[j] as int == Xor8(HexByteAt(s, i + 2 * j), key)
    decreases j
  {
    SliceOfAllHex(s, i, key);
    var r := DecodeFrom(s, i, key).value;
    var rest := DecodeFrom(s, i + 2, key).value;
    assert r == [Xor8(HexByteAt(s, i), key) as char] + rest;
    if j > 0 {
      DecodeFromAllHexAt(s, i + 2, key, j - 1);
      assert r[j] == rest[j - 1];
    }
  }

  /** For an input of hex digits only, of length n >= 2, the output has
      (n-1)/2 characters (a trailing single digit is a byte of its own), and
      character j is hex byte j+1 XOR hex byte 0. */
  lemma DecodeAllHex(s: string)
    requires AllHex(s) && |s| >= 2
    ensures |DecodeCfEmail(s)| == (|s| - 1) / 2
    ensures forall j :: 0 <= j < |DecodeCfEmail(s)| ==>
      DecodeCfEmail(s)[j] as int == Xor8(HexByteAt(s, 2 * j + 2), HexByteAt(s, 0))
  {
    var t := Slice2(s, 0);
    assert IsHexDigit(t[0]) && IsHexDigit(t[1]);
    var key := HexByteAt(s, 0);
    assert ParseHexSlice(t) == Some(key);
    DecodeFromAllHex(s, 2, key);
  }

  // ---------------------------------------------------------------------
  // Failures

  lemma {:induction false} DecodeFromFails(s: string, i: nat, key: int)
    requires -256 < key < 256
    ensures DecodeFrom(s, i, key).None? <==>
      exists k :: i <= k < |s| && (k - i) % 2 == 0 && !PairOk(s, k, key)
    decreases |s| - i
  {
    if i < |s| {
      DecodeFromFails(s, i + 2, key);
      assert DecodeFrom(s, i, key).None? <==> !PairOk(s, i, key) || DecodeFrom(s, i + 2, key).None?;
      if !PairOk(s, i, key) {
        assert i <= i < |s| && (i - i) % 2 == 0 && !PairOk(s, i, key);
      } else if DecodeFrom(s, i + 2, key).None? {
        var k :| i + 2 <= k < |s| && (k - (i + 2)) % 2 == 0 && !PairOk(s, k, key);
        assert (k - i) % 2 == 0;
      } else {
        forall k | i <= k < |s| && (k - i) % 2 == 0 ensures PairOk(s, k, key) {
          if k != i {
            assert i + 2 <= k && (k - (i + 2)) % 2 == 0;
          }
        }
      }
    }
  }

  /** The decoder never raises: when the key or any later slice is not a
      number `int()` accepts, or its `chr()` would be negative, the result is
      the empty string. */
  lemma DecodeFailsClosed(s: string, k: nat)
    requires ParseHexSlice(Slice2(s, 0)).None? ||
      (2 <= k < |s| && k % 2 == 0 && !PairOk(s, k, ParseHexSlice(Slice2(s, 0)).value))
    ensures DecodeCfEmail(s) == ""
  {
    var key := ParseHexSlice(Slice2(s, 0));
    if key.Some? {
      DecodeFromFails(s, 2, key.value);
      assert (k - 2) % 2 == 0;
    }
  }

  /** The key byte `0x10` and the byte `0x71` give `'a'` (`0x61`). */
  lemma DecodeExample()
    ensures DecodeCfEmail("1071") == "a"
  {
    var s := "1071";
    assert Slice2(s, 0) == "10" && Slice2(s, 2) == "71";
    assert ParseHexSlice("10") == Some(16);
    assert ParseHexSlice("71") == Some(0x71);
    assert Xor8(0x71, 16) == 0x61;
  }

  /** Of an odd-length hex input, the trailing single digit is one more
      character of its own: the digit XOR the key. */
  lemma DecodeTrailingDigit(s: string)
    requires AllHex(s) && |s| >= 3 && |s| % 2 == 1
    ensures |DecodeCfEmail(s)| == (|s| - 1) / 2
    ensures DecodeCfEmail(s)[|DecodeCfEmail(s)| - 1] as int == Xor8(HexValue(s[|s| - 1]), HexByteAt(s, 0))
  {
    DecodeAllHex(s);
    var j := (|s| - 1) / 2 - 1;
    assert 2 * j + 2 == |s| - 1;
  }

  /** `int(" 1", 16)` is 1, so a blank before a digit still gives a key. */
  lemma DecodeBlankInKey(s: string)
    requires s == " 171"
    ensures DecodeCfEmail(s) == "p"
  {
    assert Slice2(s, 0) == " 1" && Slice2(s, 2) == "71";
    assert ParseHexSlice(" 1") == Some(1);
    assert ParseHexSlice("71") == Some(0x71);
    assert Xor8(0x71, 1) == 0x70;
    assert DecodeFrom(s, 4, 1) == Some([]);
  }

  /** A negative key from `"-a"` makes `chr()` of every byte raise. */
  lemma DecodeNegativeKey(s: string)
    requires s == "-a71"
    ensures DecodeCfEmail(s) == ""
  {
    assert Slice2(s, 0) == "-a" && Slice2(s, 2) == "71";
    assert ParseHexSlice("-a") == Some(-10);
    assert ParseHexSlice("71") == Some(0x71);
  }
}
