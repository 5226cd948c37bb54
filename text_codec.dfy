/**
 * The two text codecs behind `safe_decode` in main.py: Latin-1 (one byte per
 * code point below 256) and strict UTF-8 (the well-formed byte sequences of
 * the Unicode standard, as Python's "utf-8" codec accepts them: no overlong
 * forms, no surrogates, nothing above U+10FFFF).
 */
module TextCodec {
  import opened Wrappers

  /** One element of a Python `bytes` value. */
  type Byte = b: int | 0 <= b < 256

  // ---------------------------------------------------------------- Latin-1

  /** `bytes.decode("latin1")`: never fails, one character per byte. */
  function Latin1Decode(b: seq<Byte>): (s: string)
    ensures |s| == |b|
    ensures forall i :: 0 <= i < |b| ==> s[i] as int == b[i]
  {
    if b == [] then [] else [b[0] as char] + Latin1Decode(b[1..])
  }

  /** `str.encode("latin1")`: succeeds exactly when every code point is below 256. */
  function Latin1Encode(s: string): (r: Option<seq<Byte>>)
    ensures r.Some? <==> forall i :: 0 <= i < |s| ==> s[i] as int < 256
    ensures r.Some? ==> Latin1Decode(r.value) == s
  {
    if s == [] then Some([])
    else if s[0] as int < 256 then
      match Latin1Encode(s[1..])
      case None => None
      case Some(rest) => Some([s[0] as int] + rest)
    else None
  }

  lemma {:induction false} Latin1RoundTrip(b: seq<Byte>)
    ensures Latin1Encode(Latin1Decode(b)) == Some(b)
  {
    if b != [] {
      var s := Latin1Decode(b);
      assert s == [b[0] as char] + Latin1Decode(b[1..]);
      assert s[1..] == Latin1Decode(b[1..]);
      Latin1RoundTrip(b[1..]);
      assert [b[0]] + b[1..] == b;
    }
  }

  // ------------------------------------------------------------------ UTF-8

  /** The byte at position i as a plain integer, or 0 past the end. */
  function At(b: seq<Byte>, i: nat): int
  {
    if i < |b| then b[i] as int else 0
  }

  /** The UTF-8 form of one code point: 1 to 4 bytes. */
  function EncodeChar(c: char): (r: seq<Byte>)
    ensures 1 <= |r| <= 4
  {
    var n := c as int;
    if n < 0x80 then [n]
    else if n < 0x800 then [0xC0 + n / 64, 0x80 + n % 64]
    else if n < 0x1_0000 then [0xE0 + n / 4096, 0x80 + n / 64 % 64, 0x80 + n % 64]
    else [0xF0 + n / 0x4_0000, 0x80 + n / 4096 % 64, 0x80 + n / 64 % 64, 0x80 + n % 64]
  }

  /** `str.encode("utf-8")`. */
  function Utf8Encode(s: string): (r: seq<Byte>)
    ensures |s| <= |r| <= 4 * |s|
  {
    if s == [] then [] else EncodeChar(s[0]) + Utf8Encode(s[1..])
  }

  /**
   * The first code point of a non-empty byte string and the number of bytes
   * it takes, or None when the string does not start with a well-formed
   * UTF-8 sequence.
   */
  function DecodeFirst(b: seq<Byte>): (r: Option<(char, nat)>)
    requires b != []
    ensures r.Some? ==> 1 <= r.value.1 <= |b| && r.value.1 <= 4
    ensures r.Some? && r.value.1 == 1 <==> b[0] < 0x80
  {
    var b0, b1, b2, b3 := b[0] as int, At(b, 1), At(b, 2), At(b, 3);
    if b0 < 0x80 then Some((b0 as char, 1))
    else if 0xC2 <= b0 < 0xE0 then
      if |b| >= 2 && 0x80 <= b1 < 0xC0
      then Some((((b0 - 0xC0) * 64 + (b1 - 0x80)) as char, 2))
      else None
    else if 0xE0 <= b0 < 0xF0 then
      var lo := if b0 == 0xE0 then 0xA0 else 0x80;
      var hi := if b0 == 0xED then 0xA0 else 0xC0;
      if |b| >= 3 && lo <= b1 < hi && 0x80 <= b2 < 0xC0
      then Some((((b0 - 0xE0) * 4096 + (b1 - 0x80) * 64 + (b2 - 0x80)) as char, 3))
      else None
    else if 0xF0 <= b0 < 0xF5 then
      var lo := if b0 == 0xF0 then 0x90 else 0x80;
      var hi := if b0 == 0xF4 then 0x90 else 0xC0;
      if |b| >= 4 && lo <= b1 < hi && 0x80 <= b2 < 0xC0 && 0x80 <= b3 < 0xC0
      then Some((((b0 - 0xF0) * 0x4_0000 + (b1 - 0x80) * 4096 + (b2 - 0x80) * 64 + (b3 - 0x80)) as char, 4))
      else None
    else None
  }

  /** `bytes.decode("utf-8")`: None where Python raises UnicodeDecodeError. */
  function Utf8Decode(b: seq<Byte>): (r: Option<string>)
    ensures r.Some? ==> |r.value| <= |b|
    ensures r.Some? ==> (r.value == [] <==> b == [])
    decreases |b|
  {
    if b == [] then Some([])
    else match DecodeFirst(b)
      case None => None
      case Some((c, k)) =>
        match Utf8Decode(b[k..])
        case None => None
        case Some(rest) => Some([c] + rest)
  }

  // Arithmetic facts behind the two directions of a one-code-point round trip.

  lemma SplitTwo(n: int)
    requires 0x80 <= n < 0x800
    ensures 2 <= n / 64 < 32 && n == (n / 64) * 64 + n % 64
  {
  }

  lemma SplitThree(n: int)
    requires 0x800 <= n < 0x1_0000
    ensures 0 <= n / 4096 < 16 && n / 64 == (n / 4096) * 64 + n / 64 % 64
    ensures n == (n / 4096) * 4096 + (n / 64 % 64) * 64 + n % 64
    ensures n / 4096 == 0 ==> n / 64 % 64 >= 32
    ensures n / 4096 == 13 && n < 0xD800 ==> n / 64 % 64 < 32
  {
  }

  lemma SplitFour(n: int)
    requires 0x1_0000 <= n < 0x11_0000
    ensures 0 <= n / 0x4_0000 <= 4
    ensures n / 4096 == (n / 0x4_0000) * 64 + n / 4096 % 64
    ensures n / 64 == (n / 4096) * 64 + n / 64 % 64
    ensures n == (n / 0x4_0000) * 0x4_0000 + (n / 4096 % 64) * 4096 + (n / 64 % 64) * 64 + n % 64
    ensures n / 0x4_0000 == 0 ==> n / 4096 % 64 >= 16
    ensures n / 0x4_0000 == 4 ==> n / 4096 % 64 < 16
  {
  }

  lemma JoinDigits(hi: int, lo: int, d: int)
    requires d == 64 || d == 4096 || d == 0x4_0000
    requires 0 <= lo < d
    ensures (hi * d + lo) / d == hi && (hi * d + lo) % d == lo
  {
  }

  /** Decoding the UTF-8 form of a code point gives back that code point. */
  lemma DecodeEncodedChar(c: char, rest: seq<Byte>)
    ensures DecodeFirst(EncodeChar(c) + rest) == Some((c, |EncodeChar(c)|))
  {
    var n := c as int;
    if 0x80 <= n < 0x800 {
      SplitTwo(n);
    } else if 0x800 <= n < 0x1_0000 {
      SplitThree(n);
    } else if 0x1_0000 <= n {
      SplitFour(n);
    }
  }

  lemma EncodeTwo(b0: int, b1: int)
    requires 0xC2 <= b0 < 0xE0 && 0x80 <= b1 < 0xC0
    ensures EncodeChar(((b0 - 0xC0) * 64 + (b1 - 0x80)) as char) == [b0, b1]
  {
    JoinDigits(b0 - 0xC0, b1 - 0x80, 64);
  }

  lemma EncodeThree(b0: int, b1: int, b2: int)
    requires 0xE0 <= b0 < 0xF0 && 0x80 <= b1 < 0xC0 && 0x80 <= b2 < 0xC0
    requires b0 == 0xE0 ==> b1 >= 0xA0
    requires b0 == 0xED ==> b1 < 0xA0
    ensures EncodeChar(((b0 - 0xE0) * 4096 + (b1 - 0x80) * 64 + (b2 - 0x80)) as char) == [b0, b1, b2]
  {
    var n := (b0 - 0xE0) * 4096 + (b1 - 0x80) * 64 + (b2 - 0x80);
    var q := (b0 - 0xE0) * 64 + (b1 - 0x80);
    assert n == q * 64 + (b2 - 0x80);
    JoinDigits(q, b2 - 0x80, 64);
    JoinDigits(b0 - 0xE0, b1 - 0x80, 64);
    JoinDigits(b0 - 0xE0, (b1 - 0x80) * 64 + (b2 - 0x80), 4096);
  }

  lemma EncodeFour(b0: int, b1: int, b2: int, b3: int)
    requires 0xF0 <= b0 < 0xF5 && 0x80 <= b1 < 0xC0 && 0x80 <= b2 < 0xC0 && 0x80 <= b3 < 0xC0
    requires b0 == 0xF0 ==> b1 >= 0x90
    requires b0 == 0xF4 ==> b1 < 0x90
    ensures EncodeChar(((b0 - 0xF0) * 0x4_0000 + (b1 - 0x80) * 4096 + (b2 - 0x80) * 64 + (b3 - 0x80)) as char)
            == [b0, b1, b2, b3]
  {
    var n := (b0 - 0xF0) * 0x4_0000 + (b1 - 0x80) * 4096 + (b2 - 0x80) * 64 + (b3 - 0x80);
    var p := (b0 - 0xF0) * 64 + (b1 - 0x80);
    var q := p * 64 + (b2 - 0x80);
    assert n == q * 64 + (b3 - 0x80);
    JoinDigits(q, b3 - 0x80, 64);
    JoinDigits(p, b2 - 0x80, 64);
    JoinDigits(b0 - 0xF0, b1 - 0x80, 64);
    JoinDigits(p, (b2 - 0x80) * 64 + (b3 - 0x80), 4096);
    JoinDigits(b0 - 0xF0, (b1 - 0x80) * 4096 + (b2 - 0x80) * 64 + (b3 - 0x80), 0x4_0000);
  }

  /** A well-formed sequence is the UTF-8 form of the code point decoded from it. */
  lemma EncodeDecodedChar(b: seq<Byte>)
    requires b != [] && DecodeFirst(b).Some?
    ensures EncodeChar(DecodeFirst(b).value.0) == b[..DecodeFirst(b).value.1]
  {
    var b0, b1, b2, b3 := b[0] as int, At(b, 1), At(b, 2), At(b, 3);
    if 0xC2 <= b0 < 0xE0 {
      EncodeTwo(b0, b1);
      assert b[..2] == [b0, b1];
    } else if 0xE0 <= b0 < 0xF0 {
      EncodeThree(b0, b1, b2);
      assert b[..3] == [b0, b1, b2];
    } else if 0xF0 <= b0 {
      EncodeFour(b0, b1, b2, b3);
      assert b[..4] == [b0, b1, b2, b3];
    }
  }

  /** Every string survives a UTF-8 round trip. */
  lemma {:induction false} Utf8RoundTrip(s: string)
    ensures Utf8Decode(Utf8Encode(s)) == Some(s)
  {
    if s != [] {
      var e := EncodeChar(s[0]);
      var rest := Utf8Encode(s[1..]);
      assert Utf8Encode(s) == e + rest;
      DecodeEncodedChar(s[0], rest);
      assert (e + rest)[|e|..] == rest;
      Utf8RoundTrip(s[1..]);
      assert [s[0]] + s[1..] == s;
    }
  }

  /** A successful decode splits into its first code point and a successful decode of the rest. */
  lemma Utf8DecodeStep(b: seq<Byte>) returns (c: char, k: nat, rest: string)
    requires b != [] && Utf8Decode(b).Some?
    ensures 1 <= k <= |b|
    ensures EncodeChar(c) == b[..k]
    ensures Utf8Decode(b[k..]) == Some(rest)
    ensures Utf8Decode(b).value == [c] + rest
  {
    c, k := DecodeFirst(b).value.0, DecodeFirst(b).value.1;
    rest := Utf8Decode(b[k..]).value;
    EncodeDecodedChar(b);
  }

  /** Whatever decodes as UTF-8 is the UTF-8 form of what it decodes to. */
  lemma {:induction false} Utf8DecodeSound(b: seq<Byte>)
    requires Utf8Decode(b).Some?
    ensures Utf8Encode(Utf8Decode(b).value) == b
    decreases |b|
  {
    if b != [] {
      var c, k, rest := Utf8DecodeStep(b);
      var s := [c] + rest;
      assert s[0] == c && s[1..] == rest;
      Utf8DecodeSound(b[k..]);
      assert b[..k] + b[k..] == b;
    }
  }

  /** On bytes below 0x80 UTF-8 and Latin-1 agree. */
  lemma {:induction false} AsciiDecodesAlike(b: seq<Byte>)
    requires forall i :: 0 <= i < |b| ==> b[i] < 0x80
    ensures Utf8Decode(b) == Some(Latin1Decode(b))
  {
    if b != [] {
      AsciiDecodesAlike(b[1..]);
    }
  }

  // -------------------------------------------------------- mojibake repair

  /**
   * The text branch of `safe_decode`: read the string as if it had been
   * decoded one layer too early through Latin-1, i.e. re-encode it as
   * Latin-1 and decode the bytes as UTF-8; keep the original text when
   * either step fails.
   */
  function Repair(s: string): (r: string)
    ensures r != s ==> Latin1Encode(s).Some? && Utf8Encode(r) == Latin1Encode(s).value
    ensures (exists i :: 0 <= i < |s| && s[i] as int >= 256) ==> r == s
  {
    match Latin1Encode(s)
    case None => s
    case Some(b) =>
      match Utf8Decode(b)
      case None => s
      case Some(t) => Utf8DecodeSound(b); t
  }

  /** Text that is the Latin-1 reading of UTF-8 bytes is repaired to the intended text. */
  lemma RepairUndoesMojibake(t: string)
    ensures Repair(Latin1Decode(Utf8Encode(t))) == t
  {
    Latin1RoundTrip(Utf8Encode(t));
    Utf8RoundTrip(t);
  }

  /** Pure-ASCII text is left as it is. */
  lemma RepairKeepsAscii(s: string)
    requires forall i :: 0 <= i < |s| ==> s[i] as int < 0x80
    ensures Repair(s) == s
  {
    var b := Latin1Encode(s).value;
    AsciiDecodesAlike(b);
  }
}
