/**
 * The text conversions `create_header` relies on: `bytes.decode()` (strict
 * UTF-8, as RFC 3629 defines it), `str()` of an int (its decimal digits) and
 * `str()` of a bytes object (its repr, `b'...'`).
 */
module PyText {
  import opened Wrappers
  import opened ByteCodec

  // ---------------------------------------------------------------- UTF-8

  /** A continuation byte 10xxxxxx carrying the 6 bits x. */
  function Cont(x: nat): byte
    requires x < 64
  {
    0x80 + x
  }

  /** The UTF-8 encoding of one character: 1 to 4 bytes by the size of its code point. */
  function Utf8Char(c: char): (bs: seq<byte>)
    ensures 1 <= |bs| <= 4
  {
    var n := c as int;
    if n < 0x80 then [n]
    else if n < 0x800 then [0xC0 + n / 64, Cont(n % 64)]
    else if n < 0x10000 then [0xE0 + n / 4096, Cont(n / 64 % 64), Cont(n % 64)]
    else [0xF0 + n / 262144, Cont(n / 4096 % 64), Cont(n / 64 % 64), Cont(n % 64)]
  }

  /** `s.encode()`: the characters' encodings one after the other, one to four bytes each. */
  function Utf8Encode(s: string): (bs: seq<byte>)
    ensures |s| <= |bs| <= 4 * |s|
  {
    if s == [] then [] else Utf8Char(s[0]) + Utf8Encode(s[1..])
  }

  /** b is a continuation byte whose payload lies in [lo, hi]. */
  predicate InCont(b: byte, lo: nat, hi: nat) {
    0x80 + lo <= b <= 0x80 + hi
  }

  /**
   * The character at the start of bs and the number of bytes it takes, or None
   * when bs does not start with a well-formed sequence: a lead byte C2-F4 with
   * the right number of continuations, and no overlong form, surrogate or code
   * point above U+10FFFF (the second byte's range narrowed after E0, ED, F0, F4).
   */
  function Lead(bs: seq<byte>): (r: Option<(char, nat)>)
    ensures r.Some? ==> 1 <= r.value.1 <= |bs| && r.value.1 <= 4
  {
    if bs == [] then None
    else
      var b0 := bs[0] as int;
      if b0 < 0x80 then Some((b0 as char, 1))
      else if 0xC2 <= b0 <= 0xDF then
        if |bs| < 2 || !InCont(bs[1], 0, 63) then None
        else Some((Code2(b0, bs[1]) as char, 2))
      else if 0xE0 <= b0 <= 0xEF then
        var lo, hi := if b0 == 0xE0 then 32 else 0, if b0 == 0xED then 31 else 63;
        if |bs| < 3 || !InCont(bs[1], lo, hi) || !InCont(bs[2], 0, 63) then None
        else Some((Code3(b0, bs[1], bs[2]) as char, 3))
      else if 0xF0 <= b0 <= 0xF4 then
        var lo, hi := if b0 == 0xF0 then 16 else 0, if b0 == 0xF4 then 15 else 63;
        if |bs| < 4 || !InCont(bs[1], lo, hi) || !InCont(bs[2], 0, 63) || !InCont(bs[3], 0, 63) then None
        else Some((Code4(b0, bs[1], bs[2], bs[3]) as char, 4))
      else None
  }

  /** The code point of a 2-, 3- or 4-byte sequence: the lead byte's low bits, then 6 bits per continuation. */
  function Code2(b0: int, b1: int): int {
    (b0 - 0xC0) * 64 + (b1 - 0x80)
  }

  function Code3(b0: int, b1: int, b2: int): int {
    (b0 - 0xE0) * 4096 + (b1 - 0x80) * 64 + (b2 - 0x80)
  }

  function Code4(b0: int, b1: int, b2: int, b3: int): int {
    (b0 - 0xF0) * 262144 + (b1 - 0x80) * 4096 + (b2 - 0x80) * 64 + (b3 - 0x80)
  }

  /** `bs.decode()`: the string bs encodes, or None for the UnicodeDecodeError of a malformed sequence. */
  function Utf8Decode(bs: seq<byte>): (r: Option<string>)
    ensures r.Some? ==> |r.value| <= |bs| <= 4 * |r.value|
    decreases |bs|
  {
    if bs == [] then Some([])
    else match Lead(bs)
      case None => None
      case Some((c, k)) =>
        match Utf8Decode(bs[k..])
        case None => None
        case Some(s) => Some([c] + s)
  }

  /** Splitting a code point into 6-bit groups and putting them back together gives it again. */
  lemma {:induction false} Groups(n: nat)
    ensures n == n / 64 * 64 + n % 64
    ensures n == n / 4096 * 4096 + n / 64 % 64 * 64 + n % 64
    ensures n == n / 262144 * 262144 + n / 4096 % 64 * 4096 + n / 64 % 64 * 64 + n % 64
  {
    ModMul(n, 64, 64);
    ModMul(n, 4096, 64);
    assert 4096 * 64 == 262144;
  }

  /** The 6-bit groups of a code point assembled from them are the ones it was assembled from. */
  lemma {:induction false} Ungroup(a0: nat, a1: nat, a2: nat, a3: nat)
    requires a1 < 64 && a2 < 64 && a3 < 64
    ensures var n := a0 * 262144 + a1 * 4096 + a2 * 64 + a3;
      n / 262144 == a0 && n / 4096 % 64 == a1 && n / 64 % 64 == a2 && n % 64 == a3
  {
    var n := a0 * 262144 + a1 * 4096 + a2 * 64 + a3;
    var q1 := a0 * 4096 + a1 * 64 + a2;
    var q2 := a0 * 64 + a1;
    DivModUnique(n, 64, q1, a3);
    DivModUnique(q1, 64, q2, a2);
    DivModUnique(q2, 64, a0, a1);
    DivModUnique(n, 4096, q2, a2 * 64 + a3);
    DivModUnique(n, 262144, a0, a1 * 4096 + a2 * 64 + a3);
  }

  /** A character's encoding, followed by anything, reads back as that character. */
  lemma {:induction false} LeadOfChar(c: char, rest: seq<byte>)
    ensures Lead(Utf8Char(c) + rest) == Some((c, |Utf8Char(c)|))
  {
    var n := c as int;
    if n < 0x80 {
    } else if n < 0x800 {
      LeadOfChar2(c, rest);
    } else if n < 0x10000 {
      LeadOfChar3(c, rest);
    } else {
      LeadOfChar4(c, rest);
    }
  }

  lemma {:induction false} LeadOfChar2(c: char, rest: seq<byte>)
    requires 0x80 <= c as int < 0x800
    ensures Lead(Utf8Char(c) + rest) == Some((c, 2))
  {
    var n := c as int;
    var bs := Utf8Char(c) + rest;
    Groups(n);
    assert bs[0] as int == 0xC0 + n / 64 && bs[1] as int == 0x80 + n % 64;
    assert Code2(bs[0] as int, bs[1] as int) == n;
  }

  lemma {:induction false} LeadOfChar3(c: char, rest: seq<byte>)
    requires 0x800 <= c as int < 0x10000
    ensures Lead(Utf8Char(c) + rest) == Some((c, 3))
  {
    var n := c as int;
    var bs := Utf8Char(c) + rest;
    Groups(n);
    assert bs[0] as int == 0xE0 + n / 4096 && bs[1] as int == 0x80 + n / 64 % 64 && bs[2] as int == 0x80 + n % 64;
    assert Code3(bs[0] as int, bs[1] as int, bs[2] as int) == n;
  }

  lemma {:induction false} LeadOfChar4(c: char, rest: seq<byte>)
    requires 0x10000 <= c as int
    ensures Lead(Utf8Char(c) + rest) == Some((c, 4))
  {
    var n := c as int;
    var bs := Utf8Char(c) + rest;
    Groups(n);
    assert bs[0] as int == 0xF0 + n / 262144 && bs[1] as int == 0x80 + n / 4096 % 64;
    assert bs[2] as int == 0x80 + n / 64 % 64 && bs[3] as int == 0x80 + n % 64;
    assert Code4(bs[0] as int, bs[1] as int, bs[2] as int, bs[3] as int) == n;
  }

  /** A well-formed sequence at the start of bs is the encoding of the character it reads as. */
  lemma {:induction false} CharOfLead(bs: seq<byte>)
    requires Lead(bs).Some?
    ensures Utf8Char(Lead(bs).value.0) == bs[..Lead(bs).value.1]
  {
    var k := Lead(bs).value.1;
    if k == 1 {
      assert bs[..1] == [bs[0]];
    } else if k == 2 {
      CharOfLead2(bs);
    } else if k == 3 {
      CharOfLead3(bs);
    } else {
      CharOfLead4(bs);
    }
  }

  lemma {:induction false} CharOfLead2(bs: seq<byte>)
    requires |bs| >= 2 && 0xC2 <= bs[0] <= 0xDF && InCont(bs[1], 0, 63)
    ensures Utf8Char(Code2(bs[0] as int, bs[1] as int) as char) == bs[..2]
  {
    var a2, a3 := bs[0] as int - 0xC0, bs[1] as int - 0x80;
    Ungroup(0, 0, a2, a3);
    assert bs[..2] == [bs[0], bs[1]];
  }

  lemma {:induction false} CharOfLead3(bs: seq<byte>)
    requires |bs| >= 3 && 0xE0 <= bs[0] <= 0xEF && InCont(bs[2], 0, 63)
    requires InCont(bs[1], if bs[0] == 0xE0 then 32 else 0, if bs[0] == 0xED then 31 else 63)
    ensures Utf8Char(Code3(bs[0] as int, bs[1] as int, bs[2] as int) as char) == bs[..3]
  {
    var a1, a2, a3 := bs[0] as int - 0xE0, bs[1] as int - 0x80, bs[2] as int - 0x80;
    Ungroup(0, a1, a2, a3);
    assert bs[..3] == [bs[0], bs[1], bs[2]];
  }

  lemma {:induction false} CharOfLead4(bs: seq<byte>)
    requires |bs| >= 4 && 0xF0 <= bs[0] <= 0xF4 && InCont(bs[2], 0, 63) && InCont(bs[3], 0, 63)
    requires InCont(bs[1], if bs[0] == 0xF0 then 16 else 0, if bs[0] == 0xF4 then 15 else 63)
    ensures Utf8Char(Code4(bs[0] as int, bs[1] as int, bs[2] as int, bs[3] as int) as char) == bs[..4]
  {
    var a0, a1, a2, a3 := bs[0] as int - 0xF0, bs[1] as int - 0x80, bs[2] as int - 0x80, bs[3] as int - 0x80;
    Ungroup(a0, a1, a2, a3);
    assert bs[..4] == [bs[0], bs[1], bs[2], bs[3]];
  }

  /** Decoding undoes encoding: every string's encoding is well formed and decodes to it. */
  lemma {:induction false} DecodeEncode(s: string)
    ensures Utf8Decode(Utf8Encode(s)) == Some(s)
  {
    if s != [] {
      var head, rest := Utf8Char(s[0]), Utf8Encode(s[1..]);
      LeadOfChar(s[0], rest);
      assert (head + rest)[|head|..] == rest;
      DecodeEncode(s[1..]);
      assert [s[0]] + s[1..] == s;
    }
  }

  /** Encoding undoes decoding: bytes that decode are the encoding of the string they decode to. */
  lemma {:induction false} EncodeDecode(bs: seq<byte>)
    requires Utf8Decode(bs).Some?
    ensures Utf8Encode(Utf8Decode(bs).value) == bs
    decreases |bs|
  {
    if bs != [] {
      var c, k := DecodeFirst(bs);
      var t := Utf8Decode(bs[k..]).value;
      CharOfLead(bs);
      EncodeDecode(bs[k..]);
      EncodeCons(c, t);
      SplitAt(bs, k);
    }
  }

  lemma {:induction false} SplitAt<T>(s: seq<T>, k: nat)
    requires k <= |s|
    ensures s[..k] + s[k..] == s
  {
  }

  lemma {:induction false} EncodeCons(c: char, t: string)
    ensures Utf8Encode([c] + t) == Utf8Char(c) + Utf8Encode(t)
  {
    assert ([c] + t)[0] == c && ([c] + t)[1..] == t;
  }

  /** Bytes that decode start with a well-formed character, and the rest decodes too. */
  lemma {:induction false} DecodeFirst(bs: seq<byte>) returns (c: char, k: nat)
    requires bs != [] && Utf8Decode(bs).Some?
    ensures Lead(bs) == Some((c, k)) && 1 <= k <= |bs|
    ensures Utf8Decode(bs[k..]).Some? && Utf8Decode(bs).value == [c] + Utf8Decode(bs[k..]).value
  {
    c, k := Lead(bs).value.0, Lead(bs).value.1;
  }

  /** So bytes decode to s exactly when they are s's encoding. */
  lemma {:induction false} DecodesTo(bs: seq<byte>, s: string)
    ensures Utf8Decode(bs) == Some(s) <==> bs == Utf8Encode(s)
  {
    if Utf8Decode(bs) == Some(s) {
      EncodeDecode(bs);
    }
    if bs == Utf8Encode(s) {
      DecodeEncode(s);
    }
  }

  /** A string of ASCII characters encodes to its character codes, one byte each. */
  lemma {:induction false} AsciiEncode(s: string)
    requires IsAscii(s)
    ensures Utf8Encode(s) == Ascii(s)
  {
    if s != [] {
      assert s[0] in s;
      assert IsAscii(s[1..]) by {
        forall c | c in s[1..] ensures c as int < 128 {
          assert c in s;
        }
      }
      AsciiEncode(s[1..]);
      assert Ascii(s) == [s[0] as int] + Ascii(s[1..]);
    }
  }

  // ---------------------------------------------------------------- str() of an int

  function DigitChar(d: nat): (c: char)
    requires d < 10
    ensures '0' <= c <= '9'
  {
    ('0' as int + d) as char
  }

  /** Every character of s is a decimal digit. */
  predicate IsDigits(s: string) {
    forall i :: 0 <= i < |s| ==> '0' <= s[i] <= '9'
  }

  /** The decimal digits of n, most significant first, with no leading zero. */
  function NatToString(n: nat): (s: string)
    ensures |s| >= 1 && IsDigits(s)
    decreases n
  {
    if n < 10 then [DigitChar(n)] else NatToString(n / 10) + [DigitChar(n % 10)]
  }

  /** `str(i)`: an optional minus sign, there exactly for a negative i, then the digits of |i|. */
  function IntToString(i: int): (s: string)
    ensures IsIntText(s) && (s[0] == '-' <==> i < 0)
  {
    if i < 0 then "-" + NatToString(-i) else NatToString(i)
  }

  /** The value of a string of decimal digits: `int(s)` for such a string. */
  function DigitsValue(s: string): nat
    requires IsDigits(s)
  {
    if s == [] then 0 else 10 * DigitsValue(s[..|s| - 1]) + (s[|s| - 1] as int - '0' as int)
  }

  /** The form `int()` accepts here: digits, with a minus sign in front or not. */
  predicate IsIntText(s: string) {
    if |s| >= 1 && s[0] == '-' then |s| >= 2 && IsDigits(s[1..]) else |s| >= 1 && IsDigits(s)
  }

  /** `int(s)` for a string that `str` of an int produces. */
  function ParseInt(s: string): int
    requires IsIntText(s)
  {
    if s[0] == '-' then -(DigitsValue(s[1..]) as int) else DigitsValue(s)
  }

  /** The digits of n have the value n, and the first of them is 0 only for n = 0. */
  lemma {:induction false} NatDigits(n: nat)
    ensures DigitsValue(NatToString(n)) == n
    ensures NatToString(n)[0] == '0' <==> n == 0
    decreases n
  {
    if n >= 10 {
      NatDigits(n / 10);
      var s := NatToString(n);
      assert s[..|s| - 1] == NatToString(n / 10);
    }
  }

  /** `int(str(i)) == i`. */
  lemma {:induction false} IntRoundTrip(i: int)
    ensures IsIntText(IntToString(i)) && ParseInt(IntToString(i)) == i
  {
    var s := IntToString(i);
    if i < 0 {
      var d := NatToString(-i);
      NatDigits(-i);
      assert s[1..] == d;
    } else {
      NatDigits(i);
      assert s[0] != '-';
    }
  }

  /** Different ints have different decimal forms. */
  lemma {:induction false} IntToStringInjective(i: int, j: int)
    requires IntToString(i) == IntToString(j)
    ensures i == j
  {
    IntRoundTrip(i);
    IntRoundTrip(j);
  }

  // ---------------------------------------------------------------- str() of a bytes object

  function HexDigit(d: nat): (c: char)
    requires d < 16
  {
    if d < 10 then DigitChar(d) else ('a' as int + d - 10) as char
  }

  /** The quote `repr` puts around bytes: a double quote when they hold a single quote and no double quote. */
  function ReprQuote(bs: seq<byte>): char {
    if '\'' as int in bs && '"' as int !in bs then '"' else '\''
  }

  /** One byte inside a bytes repr with quote q: an escape for q, backslash, tab, newline, return and non-printables. */
  function EscapeByte(q: char, b: byte): (s: string)
    ensures 1 <= |s| <= 4
  {
    if b == q as int || b == '\\' as int then ['\\', b as char]
    else if b == '\t' as int then "\\t"
    else if b == '\n' as int then "\\n"
    else if b == '\r' as int then "\\r"
    else if b < 0x20 || b >= 0x7f then ['\\', 'x', HexDigit(b / 16), HexDigit(b % 16)]
    else [b as char]
  }

  function EscapeBytes(q: char, bs: seq<byte>): string {
    if bs == [] then [] else EscapeByte(q, bs[0]) + EscapeBytes(q, bs[1..])
  }

  /** `str(bs)` of a bytes object: `b`, the quote, the escaped bytes, the same quote. */
  function BytesRepr(bs: seq<byte>): (r: string)
    ensures |r| >= 3 && r[0] == 'b' && (r[1] == '\'' || r[1] == '"') && r[|r| - 1] == r[1]
  {
    var q := ReprQuote(bs);
    ['b', q] + EscapeBytes(q, bs) + [q]
  }

  function HexValue(c: char): nat {
    if '0' <= c <= '9' then c as int - '0' as int
    else if 'a' <= c <= 'f' then c as int - 'a' as int + 10
    else 0
  }

  /** Reads back the byte at the start of an escaped text and the number of characters it took. */
  function UnescapeOne(s: string): (r: (byte, nat))
    requires |s| >= 1
    ensures 1 <= r.1 <= |s|
  {
    if s[0] != '\\' || |s| < 2 then ((s[0] as int) % 256, 1)
    else if s[1] == 't' then ('\t' as int, 2)
    else if s[1] == 'n' then ('\n' as int, 2)
    else if s[1] == 'r' then ('\r' as int, 2)
    else if s[1] == 'x' && |s| >= 4 then ((16 * HexValue(s[2]) + HexValue(s[3])) % 256, 4)
    else ((s[1] as int) % 256, 2)
  }

  /** The bytes an escaped text stands for. */
  function Unescape(s: string): seq<byte>
    decreases |s|
  {
    if s == [] then [] else var (b, k) := UnescapeOne(s); [b] + Unescape(s[k..])
  }

  /** An escaped byte, followed by anything, reads back as that byte. */
  lemma {:induction false} UnescapeByte(q: char, b: byte, rest: string)
    requires q == '\'' || q == '"'
    ensures UnescapeOne(EscapeByte(q, b) + rest) == (b, |EscapeByte(q, b)|)
  {
    var e := EscapeByte(q, b);
    var s := e + rest;
    if b == q as int || b == '\\' as int {
      assert s[0] == '\\' && s[1] == b as char;
    } else if b == '\t' as int || b == '\n' as int || b == '\r' as int {
      assert s[0] == '\\' && s[1] == e[1];
    } else if b < 0x20 || b >= 0x7f {
      HexEscape(b, rest);
    } else {
      assert s[0] == b as char;
    }
  }

  /** A byte written as `\x` and two hex digits reads back as that byte. */
  lemma {:induction false} HexEscape(b: byte, rest: string)
    ensures var s := ['\\', 'x', HexDigit(b as int / 16), HexDigit(b as int % 16)] + rest;
      UnescapeOne(s) == (b, 4)
  {
    var hi, lo := b as int / 16, b as int % 16;
    var s := ['\\', 'x', HexDigit(hi), HexDigit(lo)] + rest;
    assert s[0] == '\\' && s[1] == 'x' && s[2] == HexDigit(hi) && s[3] == HexDigit(lo);
    assert HexValue(HexDigit(hi)) == hi && HexValue(HexDigit(lo)) == lo;
  }

  /** The text inside the quotes of a repr reads back as the bytes. */
  lemma {:induction false} UnescapeEscape(q: char, bs: seq<byte>)
    requires q == '\'' || q == '"'
    ensures Unescape(EscapeBytes(q, bs)) == bs
  {
    if bs != [] {
      var e, rest := EscapeByte(q, bs[0]), EscapeBytes(q, bs[1..]);
      UnescapeByte(q, bs[0], rest);
      assert (e + rest)[|e|..] == rest;
      UnescapeEscape(q, bs[1..]);
      assert [bs[0]] + bs[1..] == bs;
    }
  }

  /** `str` of bytes starts with `b` and a quote, ends with the same quote, and the text between reads back as the bytes. */
  lemma {:induction false} BytesReprRoundTrip(bs: seq<byte>)
    ensures var r := BytesRepr(bs);
      |r| >= 3 && r[0] == 'b' && r[1] == r[|r| - 1] == ReprQuote(bs) && Unescape(r[2..|r| - 1]) == bs
  {
    var q := ReprQuote(bs);
    var r := BytesRepr(bs);
    assert r[2..|r| - 1] == EscapeBytes(q, bs);
    UnescapeEscape(q, bs);
  }

  /** Printable ASCII bytes without quotes or backslashes appear in their repr as they are. */
  lemma {:induction false} PlainBytesRepr(bs: seq<byte>)
    requires forall i :: 0 <= i < |bs| ==> 0x20 <= bs[i] < 0x7f && bs[i] != '\'' as int && bs[i] != '\\' as int
    ensures BytesRepr(bs) == "b'" + seq(|bs|, i requires 0 <= i < |bs| => bs[i] as char) + "'"
  {
    assert ReprQuote(bs) == '\'';
    PlainEscape(bs);
  }

  lemma {:induction false} PlainEscape(bs: seq<byte>)
    requires forall i :: 0 <= i < |bs| ==> 0x20 <= bs[i] < 0x7f && bs[i] != '\'' as int && bs[i] != '\\' as int
    ensures EscapeBytes('\'', bs) == seq(|bs|, i requires 0 <= i < |bs| => bs[i] as char)
  {
    if bs != [] {
      PlainEscape(bs[1..]);
    }
  }
}
