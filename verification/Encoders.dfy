/**
 The encoders of the signing code: percent-escaping and base64, each with the decoder of its
 standard.
 */
module Encoders {
  import opened Text

  // ----- Percent-escaping

  predicate IsAlnum(c: char) { '0' <= c <= '9' || 'a' <= c <= 'z' || 'A' <= c <= 'Z' }

  predicate Unreserved(c: char) { IsAlnum(c) || c == '-' || c == '.' || c == '_' || c == '~' }

  const HEX: string := "0123456789ABCDEF"

  const UPPER: string := "ABCDEFGHIJKLMNOPQRSTUVWXYZ"
  const LOWER: string := "abcdefghijklmnopqrstuvwxyz"
  const LETTERS: string := UPPER + LOWER + "0123456789"

  lemma UpperAt(i: nat)
    requires i < 26
    ensures |UPPER| == 26 && UPPER[i] as int == 'A' as int + i
  {
    var u := UPPER;
    assert |u| == 26;
    assert u[0] == 'A' && u[1] == 'B' && u[2] == 'C' && u[3] == 'D' && u[4] == 'E' && u[5] == 'F' && u[6] == 'G';
    assert u[7] == 'H' && u[8] == 'I' && u[9] == 'J' && u[10] == 'K' && u[11] == 'L' && u[12] == 'M' && u[13] == 'N';
    assert u[14] == 'O' && u[15] == 'P' && u[16] == 'Q' && u[17] == 'R' && u[18] == 'S' && u[19] == 'T' && u[20] == 'U';
    assert u[21] == 'V' && u[22] == 'W' && u[23] == 'X' && u[24] == 'Y' && u[25] == 'Z';
  }

  lemma LowerAt(i: nat)
    requires i < 26
    ensures |LOWER| == 26 && LOWER[i] as int == 'a' as int + i
  {
    var l := LOWER;
    assert |l| == 26;
    assert l[0] == 'a' && l[1] == 'b' && l[2] == 'c' && l[3] == 'd' && l[4] == 'e' && l[5] == 'f' && l[6] == 'g';
    assert l[7] == 'h' && l[8] == 'i' && l[9] == 'j' && l[10] == 'k' && l[11] == 'l' && l[12] == 'm' && l[13] == 'n';
    assert l[14] == 'o' && l[15] == 'p' && l[16] == 'q' && l[17] == 'r' && l[18] == 's' && l[19] == 't' && l[20] == 'u';
    assert l[21] == 'v' && l[22] == 'w' && l[23] == 'x' && l[24] == 'y' && l[25] == 'z';
  }

  /** The letters and digits, listed: the first 62 characters of both alphabets. */
  lemma {:induction false} LetterAt(i: nat)
    requires i < 62
    ensures |LETTERS| == 62
    ensures LETTERS[i] as int
         == if i < 26 then 'A' as int + i else if i < 52 then 'a' as int + i - 26 else '0' as int + i - 52
  {
    UpperAt(0);
    LowerAt(0);
    var d := "0123456789";
    assert |d| == 10;
    if i < 26 { UpperAt(i); } else if i < 52 { LowerAt(i - 26); } else { DigitAt(i - 52); }
    hide UPPER, LOWER;
    assert LETTERS[i] == if i < 26 then UPPER[i] else if i < 52 then LOWER[i - 26] else d[i - 52];
  }

  /** The unreserved characters of section 2.3 of RFC 3986, listed. */
  lemma {:induction false} UnreservedAre(c: char)
    ensures Unreserved(c) <==> c in LETTERS || c in "-._~"
  {
    if IsAlnum(c) {
      var i := if c <= '9' then c as int - '0' as int + 52 else if c <= 'Z' then c as int - 'A' as int
               else c as int - 'a' as int + 26;
      LetterAt(i);
      assert LETTERS[i] == c;
    }
    if c in LETTERS {
      var i :| 0 <= i < |LETTERS| && LETTERS[i] == c;
      LetterAt(0);
      LetterAt(i);
    }
    hide LETTERS;
  }

  /** `hexanizer`: head, high digit, low digit. */
  function Hexanize(head: string, c: char): string {
    head + [HEX[c as int / 16 % 16], HEX[c as int % 16]]
  }

  function EscapeChar(c: char): string {
    if Unreserved(c) then [c] else Hexanize("%", c)
  }

  /** `url_escape`. */
  function Escape(s: string): string {
    if s == "" then "" else EscapeChar(s[0]) + Escape(s[1..])
  }

  /** Percent-decoding (section 2.1 of RFC 3986); `None` when a percent sign is not followed by two
      hexadecimal digits. */
  function Unescape(s: string): Option<string>
    decreases |s|
  {
    if s == "" then Some("")
    else if s[0] == '%' then
      if |s| < 3 || !IsHex(s[1]) || !IsHex(s[2]) then None
      else Cons((DigitOf(s[1]) * 16 + DigitOf(s[2])) as char, Unescape(s[3..]))
    else Cons(s[0], Unescape(s[1..]))
  }

  function Cons(c: char, t: Option<string>): Option<string> {
    if t.Some? then Some([c] + t.value) else None
  }

  /** Text made of unreserved characters and percent triplets with upper-case digits only. */
  predicate IsEscaped(s: string)
    decreases |s|
  {
    s == "" ||
    (Unreserved(s[0]) && IsEscaped(s[1..])) ||
    (|s| >= 3 && s[0] == '%' && s[1] in HEX && s[2] in HEX && IsEscaped(s[3..]))
  }

  predicate EscapedChar(c: char) { Unreserved(c) || c == '%' }

  lemma HexDigit(n: nat)
    requires n < 16
    ensures IsHex(HEX[n]) && DigitOf(HEX[n]) == n && Unreserved(HEX[n])
  {
    assert HEX[0] == '0' && HEX[1] == '1' && HEX[2] == '2' && HEX[3] == '3';
    assert HEX[4] == '4' && HEX[5] == '5' && HEX[6] == '6' && HEX[7] == '7';
    assert HEX[8] == '8' && HEX[9] == '9' && HEX[10] == 'A' && HEX[11] == 'B';
    assert HEX[12] == 'C' && HEX[13] == 'D' && HEX[14] == 'E' && HEX[15] == 'F';
  }

  lemma Nibbles(x: nat)
    requires x < 256
    ensures x / 16 % 16 * 16 + x % 16 == x
  {}

  lemma {:induction false} TripletDecodes(c: char, t: string)
    requires c as int < 256
    ensures Unescape(Hexanize("%", c) + t) == Cons(c, Unescape(t))
  {
    var hi, lo := c as int / 16 % 16, c as int % 16;
    HexDigit(hi);
    HexDigit(lo);
    Nibbles(c as int);
    hide HEX, IsHex, DigitOf;
    var e := Hexanize("%", c) + t;
    assert e[0] == '%' && e[1] == HEX[hi] && e[2] == HEX[lo] && e[3..] == t;
    assert (DigitOf(e[1]) * 16 + DigitOf(e[2])) as char == c;
  }

  /** Every byte string comes back from its escaped form. */
  lemma {:induction false} EscapeDecodes(s: string)
    requires IsBytes(s)
    ensures Unescape(Escape(s)) == Some(s)
  {
    if s != "" {
      var c, t := s[0], Escape(s[1..]);
      EscapeDecodes(s[1..]);
      assert s == [c] + s[1..];
      hide Hexanize;
      if Unreserved(c) {
        assert ([c] + t)[1..] == t;
      } else {
        TripletDecodes(c, t);
      }
    }
  }

  lemma {:induction false} OneEscaped(c: char, t: string)
    requires IsEscaped(t) && All(t, EscapedChar)
    ensures IsEscaped(EscapeChar(c) + t) && All(EscapeChar(c) + t, EscapedChar)
  {
    var hi, lo := c as int / 16 % 16, c as int % 16;
    HexDigit(hi);
    HexDigit(lo);
    assert HEX[hi] in HEX && HEX[lo] in HEX;
    hide HEX, Unreserved;
    var e := EscapeChar(c) + t;
    if Unreserved(c) {
      assert e[1..] == t;
    } else {
      assert e[0] == '%' && e[1] == HEX[hi] && e[2] == HEX[lo] && e[3..] == t;
    }
  }

  /** The escaped form uses nothing but unreserved characters and percent triplets. */
  lemma {:induction false} EscapeAlphabet(s: string)
    ensures IsEscaped(Escape(s)) && All(Escape(s), EscapedChar)
  {
    if s != "" {
      EscapeAlphabet(s[1..]);
      OneEscaped(s[0], Escape(s[1..]));
      hide EscapeChar, IsEscaped, All;
    }
  }

  /** Text of unreserved characters is its own escaped form. */
  lemma {:induction false} UnreservedEscapes(s: string)
    requires All(s, Unreserved)
    ensures Escape(s) == s && Unescape(s) == Some(s)
  {
    if s != "" {
      UnreservedEscapes(s[1..]);
      assert s == [s[0]] + s[1..];
    }
  }

  // ----- Base64

  type byte = x: int | 0 <= x < 256

  /** `base64_convert_single`. */
  function Base64Char(c: int): char {
    if c < 0 then '='
    else if c < 26 then ('A' as int + c) as char
    else if c < 52 then ('a' as int + c - 26) as char
    else if c < 62 then ('0' as int + c - 52) as char
    else if c == 62 then '+'
    else if c == 63 then '/'
    else '='
  }

  /** The first `n` bytes shifted together, zero for the missing ones. */
  function Gather(s: seq<byte>, n: nat): nat {
    if n == 0 then 0 else Gather(s, n - 1) * 256 + (if n - 1 < |s| then s[n - 1] else 0)
  }

  function Quad(tmp: nat, pad: nat): string {
    [Base64Char(tmp / 0x40000 % 64), Base64Char(tmp / 4096 % 64),
     if pad > 1 then '=' else Base64Char(tmp / 64 % 64), if pad > 0 then '=' else Base64Char(tmp % 64)]
  }

  function Base64(s: seq<byte>): string
    decreases |s|
  {
    if s == [] then ""
    else if |s| < 3 then Quad(Gather(s, 3), 3 - |s|)
    else Quad(Gather(s, 3), 0) + Base64(s[3..])
  }

  lemma Base64Unfold(src: seq<byte>, start: nat, ite: nat, tmp: nat, pad: nat)
    requires start < |src| && tmp == Gather(src[start..], 3)
    requires ite == (if start + 3 <= |src| then start + 3 else |src|) && pad == start + 3 - ite
    ensures Base64(src[start..]) == Quad(tmp, pad) + Base64(src[ite..])
  {
    hide Gather, Quad;
    assert pad == 0 ==> src[start..][3..] == src[ite..];
    assert Quad(tmp, pad) + "" == Quad(tmp, pad);
  }

  /** The encoder's two loops. */
  method Base64Encode(src: seq<byte>) returns (ret: string)
    ensures ret == Base64(src)
  {
    hide Base64Char;
    ret := "";
    var ite := 0;
    assert src[0..] == src;
    while ite != |src|
      invariant ite <= |src|
      invariant ret + Base64(src[ite..]) == Base64(src)
      decreases |src| - ite
    {
      ghost var start, before := ite, ret;
      var tmp: nat := 0;
      var pad := 0;
      for n := 0 to 3
        invariant tmp == Gather(src[start..], n)
        invariant pad == start + n - ite
        invariant ite == if start + n <= |src| then start + n else |src|
      {
        tmp := tmp * 256;
        if ite != |src| {
          tmp := tmp + src[ite] as int;
          ite := ite + 1;
        } else {
          pad := pad + 1;
        }
      }
      Base64Unfold(src, start, ite, tmp, pad);
      hide Gather, Base64;
      ret := ret + [Base64Char(tmp / 0x40000 % 64)];
      ret := ret + [Base64Char(tmp / 4096 % 64)];
      ret := ret + [if pad > 1 then '=' else Base64Char(tmp / 64 % 64)];
      ret := ret + [if pad > 0 then '=' else Base64Char(tmp % 64)];
      FourAppended(before, Base64Char(tmp / 0x40000 % 64), Base64Char(tmp / 4096 % 64),
        if pad > 1 then '=' else Base64Char(tmp / 64 % 64), if pad > 0 then '=' else Base64Char(tmp % 64));
      assert ret == before + Quad(tmp, pad);
      hide Quad;
      Assoc(before, Quad(tmp, pad), Base64(src[ite..]));
    }
    assert ret + "" == ret;
  }

  lemma FourAppended(s: string, a: char, b: char, c: char, d: char)
    ensures s + [a] + [b] + [c] + [d] == s + [a, b, c, d]
  {}

  function Index64(c: char): int {
    if 'A' <= c <= 'Z' then c as int - 'A' as int
    else if 'a' <= c <= 'z' then c as int - 'a' as int + 26
    else if '0' <= c <= '9' then c as int - '0' as int + 52
    else if c == '+' then 62
    else if c == '/' then 63
    else -1
  }

  type sextet = x: int | 0 <= x < 64

  function Octets(v: nat): (bs: seq<byte>)
    ensures |bs| == 3
  {
    [v / 0x10000 % 256, v / 256 % 256, v % 256]
  }

  /** One group of four characters; padding is allowed in the last group only. */
  function DecodeQuad(q: string, last: bool): Option<seq<byte>>
    requires |q| == 4
  {
    var pad := if q[3] != '=' then 0 else if q[2] != '=' then 1 else 2;
    var a, b := Index64(q[0]), Index64(q[1]);
    var c, d := if pad > 1 then 0 else Index64(q[2]), if pad > 0 then 0 else Index64(q[3]);
    if a < 0 || b < 0 || c < 0 || d < 0 || (pad > 0 && !last) then None
    else Some(Octets(Word(a, b, c, d))[..3 - pad])
  }

  /** Four sextets put together. */
  function Word(a: nat, b: nat, c: nat, d: nat): nat { a * 0x40000 + b * 4096 + c * 64 + d }

  /** The decoder of section 4 of RFC 4648. */
  function Decode64(t: string): Option<seq<byte>>
    decreases |t|
  {
    if t == "" then Some([])
    else if |t| < 4 then None
    else match DecodeQuad(t[..4], |t| == 4)
      case None => None
      case Some(bytes) =>
        var rest := Decode64(t[4..]);
        if rest.Some? then Some(bytes + rest.value) else None
  }

  /** The alphabet of table 1 of RFC 4648, listed. */
  lemma {:induction false} Base64Alphabet(n: nat)
    requires n < 64
    ensures Base64Char(n) == (LETTERS + "+/")[n]
  {
    LetterAt(0);
    if n < 62 {
      LetterAt(n);
      assert (LETTERS + "+/")[n] == LETTERS[n];
    } else {
      assert (LETTERS + "+/")[n] == "+/"[n - 62];
    }
    hide LETTERS;
  }

  lemma Base64CharIndex(n: nat)
    requires n < 64
    ensures Index64(Base64Char(n)) == n
  {}

  lemma Sextets24(v: nat)
    requires v < 0x1000000
    ensures v == Word(v / 0x40000 % 64, v / 4096 % 64, v / 64 % 64, v % 64)
  {
    var a := v / 64;
    var b := a / 64;
    assert b == v / 4096 && b / 64 == v / 0x40000;
  }

  lemma Gather3(s: seq<byte>)
    ensures |s| >= 3 ==> Gather(s, 3) == s[0] as int * 0x10000 + s[1] as int * 256 + s[2] as int
    ensures |s| == 2 ==> Gather(s, 3) == s[0] as int * 0x10000 + s[1] as int * 256
    ensures |s| == 1 ==> Gather(s, 3) == s[0] as int * 0x10000
    ensures Gather(s, 3) < 0x1000000
  {
    assert Gather(s, 3) == Gather(s, 2) * 256 + (if 2 < |s| then s[2] else 0);
    assert Gather(s, 2) == Gather(s, 1) * 256 + (if 1 < |s| then s[1] else 0);
    assert Gather(s, 1) == Gather(s, 0) * 256 + (if 0 < |s| then s[0] else 0);
  }

  lemma OctetsOf(a: byte, b: byte, c: byte)
    ensures Octets(a as int * 0x10000 + b as int * 256 + c as int) == [a, b, c]
  {
    var v := a as int * 0x10000 + b as int * 256 + c as int;
    Quotient(a as int * 256 + b as int, c);
    Quotient(a, b);
    assert v / 0x10000 == v / 256 / 256;
  }

  lemma Quotient(k: nat, r: byte)
    ensures (k * 256 + r) / 256 == k && (k * 256 + r) % 256 == r
  {}

  lemma SextetsDecode(a: sextet, b: sextet, c: sextet, d: sextet, pad: nat, last: bool)
    requires pad <= 2 && (pad > 0 ==> last && d == 0) && (pad > 1 ==> c == 0)
    ensures var q := [Base64Char(a), Base64Char(b), if pad > 1 then '=' else Base64Char(c),
                      if pad > 0 then '=' else Base64Char(d)];
      DecodeQuad(q, last) == Some(Octets(Word(a, b, c, d))[..3 - pad])
  {
    Base64CharIndex(a);
    Base64CharIndex(b);
    Base64CharIndex(c);
    Base64CharIndex(d);
    assert Index64('=') == -1;
    hide Base64Char, Index64, Octets, Word;
  }

  lemma PaddedZeros(x: nat, y: nat)
    ensures (x * 0x10000 + y * 256) % 64 == 0 && x * 0x10000 / 64 % 64 == 0
  {
    Multiple(x * 1024 + y * 4);
    Multiple(x * 1024);
    Multiple(x * 16);
  }

  lemma Multiple(k: nat)
    ensures k * 64 % 64 == 0 && k * 64 / 64 == k
  {}

  lemma {:induction false} WordDecodes(v: nat, pad: nat, last: bool)
    requires v < 0x1000000 && pad <= 2 && (pad > 0 ==> last && v % 64 == 0) && (pad > 1 ==> v / 64 % 64 == 0)
    ensures DecodeQuad(Quad(v, pad), last) == Some(Octets(v)[..3 - pad])
  {
    Sextets24(v);
    hide Base64Char, DecodeQuad, Octets, Word;
    SextetsDecode(v / 0x40000 % 64, v / 4096 % 64, v / 64 % 64, v % 64, pad, last);
  }

  lemma GatherPadding(s: seq<byte>)
    requires s != []
    ensures Gather(s, 3) < 0x1000000
    ensures |s| < 3 ==> Gather(s, 3) % 64 == 0
    ensures |s| == 1 ==> Gather(s, 3) / 64 % 64 == 0
  {
    Gather3(s);
    hide Gather;
    PaddedZeros(s[0], if |s| > 1 then s[1] else 0);
  }

  lemma GatherOctets(s: seq<byte>)
    requires s != []
    ensures Octets(Gather(s, 3)) == [s[0], if |s| > 1 then s[1] else 0, if |s| > 2 then s[2] else 0]
  {
    Gather3(s);
    hide Gather, Octets;
    OctetsOf(s[0], if |s| > 1 then s[1] else 0, if |s| > 2 then s[2] else 0);
  }

  lemma {:induction false} QuadDecodes(s: seq<byte>, last: bool)
    requires s != [] && (|s| < 3 ==> last)
    ensures DecodeQuad(Quad(Gather(s, 3), if |s| < 3 then 3 - |s| else 0), last)
         == Some(if |s| < 3 then s else s[..3])
  {
    hide Gather, DecodeQuad, Octets, Quad;
    var v, pad := Gather(s, 3), if |s| < 3 then 3 - |s| else 0;
    GatherPadding(s);
    GatherOctets(s);
    WordDecodes(v, pad, last);
    assert Octets(v)[..3 - pad] == if |s| < 3 then s else s[..3];
  }

  /** The encoding's length is four times the number of started triples. */
  lemma {:induction false} Base64Length(s: seq<byte>)
    ensures |Base64(s)| == (|s| + 2) / 3 * 4
    decreases |s|
  {
    hide Gather, Base64Char;
    if |s| >= 3 { Base64Length(s[3..]); }
  }

  /** Encoding any bytes is undone by the decoder. */
  lemma {:induction false} Base64Decodes(s: seq<byte>)
    ensures Decode64(Base64(s)) == Some(s)
    decreases |s|
  {
    if s != [] {
      var q := Quad(Gather(s, 3), if |s| < 3 then 3 - |s| else 0);
      assert |q| == 4;
      hide Gather, Quad, DecodeQuad;
      if |s| >= 3 {
        var t := Base64(s[3..]);
        Base64Decodes(s[3..]);
        QuadDecodes(s, t == "");
        GroupDecodes(q, t, s[..3], s[3..]);
        assert s == s[..3] + s[3..];
      } else {
        QuadDecodes(s, true);
        GroupDecodes(q, "", s, []);
        assert q + "" == q && s + [] == s;
      }
    }
  }

  lemma {:induction false} GroupDecodes(q: string, t: string, bytes: seq<byte>, rest: seq<byte>)
    requires |q| == 4 && DecodeQuad(q, t == "") == Some(bytes) && Decode64(t) == Some(rest)
    ensures Decode64(q + t) == Some(bytes + rest)
  {
    hide DecodeQuad;
    TakeDrop(q, t);
  }
}
