/**
 The hand-written UTF-8 encoder of the JSON parser, against the encoding of section 3 of RFC 3629.
 Bit operations on the unsigned 32-bit code are written as arithmetic: `code >> 6` is `code / 64`,
 `code & 0x3F` is `code % 64`, and or-ing a constant onto cleared bits is addition.
 */
module Utf8 {
  import opened Text

  type uint32 = x: int | 0 <= x < 0x1_0000_0000

  predicate IsSurrogate(code: int) { 0xD800 <= code < 0xE000 }

  predicate IsScalar(code: int) { 0 <= code <= 0xD7FF || 0xE000 <= code <= 0x10FFFF }

  /** The head byte, chosen by the size of the whole code. */
  function HeadByte(code: uint32): (b: int)
    requires !IsSurrogate(code)
    ensures 0 <= b < 0x100
  {
    if code >= 0x04000000 then 0xFC + (code / 0x40000000) % 2
    else if code >= 0x00200000 then 0xF8 + (code / 0x1000000) % 4
    else if code >= 0x00010000 then 0xF0 + (code / 0x40000) % 8
    else if code >= 0x00000800 then 0xE0 + (code / 0x1000) % 16
    else if code >= 0x00000080 then 0xC0 + (code / 0x40) % 32
    else code
  }

  /** The continuation bytes: one for every six bits while the rest is not below 0x80. */
  function Continuation(code: uint32): string
    decreases code
  {
    if code < 0x80 then "" else Continuation(code / 64) + [(0x80 + code % 64) as char]
  }

  /** `ucn_to_utf8_t`: refuses surrogates. */
  function UcnToUtf8(code: uint32): (r: Option<string>)
    ensures r.None? <==> IsSurrogate(code)
    ensures r.Some? ==> r.value != ""
  {
    if IsSurrogate(code) then None else Some([HeadByte(code) as char] + Continuation(code))
  }

  /** The loop: push six bits to the front until the rest is below 0x80, then the head. */
  method EncodeUcn(code: uint32) returns (ok: bool, res: string)
    ensures ok <==> UcnToUtf8(code).Some?
    ensures ok ==> res == UcnToUtf8(code).value
  {
    res := "";
    if IsSurrogate(code) {
      return false, res;
    }
    var head := HeadByte(code);
    var bits: uint32 := code;
    var bytes: string := "";
    while bits >= 0x80
      invariant Continuation(bits) + bytes == Continuation(code)
    {
      assert Continuation(bits) == Continuation(bits / 64) + [(0x80 + bits % 64) as char];
      Assoc(Continuation(bits / 64), [(0x80 + bits % 64) as char], bytes);
      bytes := [(0x80 + bits % 64) as char] + bytes;
      bits := bits / 64;
    }
    assert bytes == Continuation(code);
    return true, [head as char] + bytes;
  }

  // ----- Section 3 of RFC 3629

  function Cont(bits: int): char
    requires bits >= 0
  {
    (0x80 + bits % 64) as char
  }

  /** The octets RFC 3629 assigns to a scalar value. */
  function Rfc3629(code: int): string
    requires IsScalar(code)
  {
    if code < 0x80 then [code as char]
    else if code < 0x800 then [(0xC0 + code / 64) as char, Cont(code)]
    else if code < 0x10000 then [(0xE0 + code / 4096) as char, Cont(code / 64), Cont(code)]
    else [(0xF0 + code / 0x40000) as char, Cont(code / 4096), Cont(code / 64), Cont(code)]
  }

  predicate IsCont(c: char) { 0x80 <= c as int < 0xC0 }

  function Low(c: char): int { c as int % 64 }

  /** The first scalar value of a text and how many octets it takes; overlong forms, surrogates and
      values above 0x10FFFF are refused. */
  function DecodeOne(s: string): (r: Option<(int, nat)>)
    requires s != ""
    ensures r.Some? ==> 0 < r.value.1 <= |s|
  {
    var b := s[0] as int;
    if b < 0x80 then Some((b, 1))
    else if 0xC2 <= b < 0xE0 && |s| > 1 && IsCont(s[1]) then Some(((b - 0xC0) * 64 + Low(s[1]), 2))
    else if 0xE0 <= b < 0xF0 && |s| > 2 && IsCont(s[1]) && IsCont(s[2]) then
      var code := (b - 0xE0) * 4096 + Low(s[1]) * 64 + Low(s[2]);
      if code < 0x800 || !IsScalar(code) then None else Some((code, 3))
    else if 0xF0 <= b < 0xF5 && |s| > 3 && IsCont(s[1]) && IsCont(s[2]) && IsCont(s[3]) then
      var code := (b - 0xF0) * 0x40000 + Low(s[1]) * 4096 + Low(s[2]) * 64 + Low(s[3]);
      if code < 0x10000 || code >= 0x110000 then None else Some((code, 4))
    else None
  }

  function Decode(s: string): Option<seq<int>>
    decreases |s|
  {
    if s == "" then Some([])
    else match DecodeOne(s)
      case None => None
      case Some((code, n)) =>
        match Decode(s[n..])
        case None => None
        case Some(codes) => Some([code] + codes)
  }

  lemma Sextets(code: nat)
    ensures code == code / 64 * 64 + code % 64
    ensures code == code / 4096 * 4096 + code / 64 % 64 * 64 + code % 64
    ensures code == code / 0x40000 * 0x40000 + code / 4096 % 64 * 4096 + code / 64 % 64 * 64 + code % 64
    ensures Low(Cont(code)) == code % 64 && IsCont(Cont(code))
  {
    var a := code / 64;
    var b := a / 64;
    assert b == code / 4096 && b / 64 == code / 0x40000;
  }

  lemma {:induction false} DecodeOneInverts(code: int, rest: string)
    requires IsScalar(code)
    ensures DecodeOne(Rfc3629(code) + rest) == Some((code, |Rfc3629(code)|))
  {
    var s := Rfc3629(code) + rest;
    Sextets(code);
    Sextets(code / 64);
    Sextets(code / 4096);
    hide Low, IsCont;
    if code < 0x80 {
      assert s[0] == code as char;
    } else if code < 0x800 {
      assert s[0] == (0xC0 + code / 64) as char && s[1] == Cont(code);
      hide Cont;
    } else if code < 0x10000 {
      assert s[0] == (0xE0 + code / 4096) as char && s[1] == Cont(code / 64) && s[2] == Cont(code) && |s| > 2;
      hide Cont;
    } else {
      assert s[0] == (0xF0 + code / 0x40000) as char && s[1] == Cont(code / 4096);
      assert s[2] == Cont(code / 64) && s[3] == Cont(code) && |s| > 3;
      hide Cont;
    }
  }

  // ----- Where the two agree

  /** The code points on which the loop runs often enough. */
  predicate EncodesRight(code: int) {
    0 <= code < 0x800 || 0x2000 <= code < 0x10000 || 0x80000 <= code < 0x110000
  }

  lemma ContinuationUnfold(code: uint32)
    ensures code < 0x80 ==> Continuation(code) == ""
    ensures 0x80 <= code < 0x2000 ==> Continuation(code) == [Cont(code)]
    ensures 0x2000 <= code < 0x80000 ==> Continuation(code) == [Cont(code / 64), Cont(code)]
    ensures 0x80000 <= code < 0x2000000 ==> Continuation(code) == [Cont(code / 4096), Cont(code / 64), Cont(code)]
  {
    if code >= 0x80 {
      assert Continuation(code) == Continuation(code / 64) + [Cont(code)];
      if code >= 0x2000 {
        assert Continuation(code / 64) == Continuation(code / 64 / 64) + [Cont(code / 64)];
        assert code / 64 / 64 == code / 4096;
        if 0x80000 <= code < 0x2000000 {
          assert Continuation(code / 4096) == Continuation(code / 4096 / 64) + [Cont(code / 4096)];
          assert code / 4096 / 64 < 0x80;
        }
      }
    }
  }

  /** The encoder gives the octets of RFC 3629 exactly on those code points. On every other scalar
      value it gives them without the first continuation octet. */
  lemma RightExactly(code: int)
    requires IsScalar(code)
    ensures UcnToUtf8(code) == Some(Rfc3629(code)) <==> EncodesRight(code)
    ensures !EncodesRight(code) ==> UcnToUtf8(code) == Some([Rfc3629(code)[0]] + Rfc3629(code)[2..])
  {
    var right := Rfc3629(code);
    HeadAgrees(code);
    TailAgrees(code);
    hide Continuation, HeadByte, Rfc3629;
    assert EncodesRight(code) ==> right == [right[0]] + right[1..];
  }

  lemma HeadAgrees(code: int)
    requires IsScalar(code)
    ensures Rfc3629(code)[0] == HeadByte(code) as char
  {
    hide Cont;
  }

  lemma TailAgrees(code: int)
    requires IsScalar(code)
    ensures EncodesRight(code) ==> Continuation(code) == Rfc3629(code)[1..]
    ensures !EncodesRight(code) ==> |Rfc3629(code)| > 2 && Continuation(code) == Rfc3629(code)[2..]
  {
    ContinuationUnfold(code);
    hide Continuation, Cont;
  }

  /** Among the codes of Unicode exactly the scalar values are encoded. */
  lemma RefusesExactly(code: uint32)
    requires code <= 0x10FFFF
    ensures UcnToUtf8(code).Some? <==> IsScalar(code)
  {}

  /** The octets that RFC 2279 assigned to longer codes. */
  function Rfc2279(code: int): string
    requires 0x110000 <= code < 0x80000000
  {
    if code < 0x200000 then [(0xF0 + code / 0x40000) as char, Cont(code / 4096), Cont(code / 64), Cont(code)]
    else if code < 0x4000000 then
      [(0xF8 + code / 0x1000000) as char, Cont(code / 0x40000), Cont(code / 4096), Cont(code / 64), Cont(code)]
    else
      [(0xFC + code / 0x40000000) as char, Cont(code / 0x1000000), Cont(code / 0x40000), Cont(code / 4096),
       Cont(code / 64), Cont(code)]
  }

  lemma FourContinuations(code: uint32)
    requires 0x2000000 <= code < 0x80000000
    ensures Continuation(code) == [Cont(code / 0x40000), Cont(code / 4096), Cont(code / 64), Cont(code)]
  {
    var a := code / 64;
    assert a / 4096 == code / 0x40000 && a / 64 == code / 4096;
    ContinuationUnfold(a);
    assert Continuation(code) == Continuation(a) + [Cont(code)];
    hide Continuation, Cont;
  }

  /** Beyond Unicode the loop is right on 21 bits and on the upper half of 26, and elsewhere, up to 31 bits, it is
      again the first continuation octet that is missing. */
  lemma {:induction false} LongExactly(code: uint32)
    requires 0x110000 <= code < 0x80000000
    ensures UcnToUtf8(code) == Some(Rfc2279(code)) <==> code < 0x200000 || 0x2000000 <= code < 0x4000000
    ensures !(code < 0x200000 || 0x2000000 <= code < 0x4000000) ==>
              UcnToUtf8(code) == Some([Rfc2279(code)[0]] + Rfc2279(code)[2..])
  {
    assert HeadByte(code) as char == Rfc2279(code)[0] by { hide Cont; }
    if code < 0x2000000 { ContinuationUnfold(code); } else { FourContinuations(code); }
    hide Continuation, Cont, HeadByte;
    if code < 0x200000 || 0x2000000 <= code < 0x4000000 {
      assert Rfc2279(code) == [Rfc2279(code)[0]] + Rfc2279(code)[1..];
    } else {
      assert |Rfc2279(code)| == |UcnToUtf8(code).value| + 1;
    }
  }

  /** What the encoder takes. */
  type Code = code: uint32 | !IsSurrogate(code)

  /** Encoding a sequence of code points as the parser does, one after the other. */
  function EncodeAll(codes: seq<Code>): string
  {
    if codes == [] then "" else UcnToUtf8(codes[0]).value + EncodeAll(codes[1..])
  }

  lemma {:induction false} RightDecodes(code: int, rest: string)
    requires IsScalar(code) && EncodesRight(code)
    ensures Decode(UcnToUtf8(code).value + rest)
         == if Decode(rest).None? then None else Some([code] + Decode(rest).value)
  {
    RightExactly(code);
    DecodeOneInverts(code, rest);
    hide Rfc3629, DecodeOne, UcnToUtf8, EncodesRight;
    TakeDrop(Rfc3629(code), rest);
  }

  /** No encoded text starts with a continuation octet. */
  lemma {:induction false} HeadIsNoContinuation(codes: seq<Code>)
    ensures EncodeAll(codes) != "" ==> !IsCont(EncodeAll(codes)[0])
  {
    if codes != [] {
      var first := UcnToUtf8(codes[0]).value;
      assert EncodeAll(codes)[0] == first[0] == HeadByte(codes[0]) as char;
    }
  }

  /** Shortened octets are refused in front of anything that is no continuation octet. */
  lemma {:induction false} ShortIsRefused(code: int, rest: string)
    requires IsScalar(code) && !EncodesRight(code) && (rest != "" ==> !IsCont(rest[0]))
    ensures Decode(UcnToUtf8(code).value + rest) == None
  {
    RightExactly(code);
    hide UcnToUtf8;
    var short := UcnToUtf8(code).value;
    var s := short + rest;
    assert code < 0x2000 ==> short == [(0xE0 + code / 4096) as char, Cont(code)];
    assert code >= 0x2000 ==> short == [(0xF0 + code / 0x40000) as char, Cont(code / 64), Cont(code)];
    hide Cont;
    assert s[0] == short[0] && (|s| > |short| ==> s[|short|] == rest[0]);
    assert DecodeOne(s) == None;
  }

  /** So are the octets of a code beyond the last scalar value, in front of anything. */
  lemma {:induction false} LargeIsRefused(code: uint32, rest: string)
    requires code >= 0x110000
    ensures Decode(UcnToUtf8(code).value + rest) == None
  {
    var s := UcnToUtf8(code).value + rest;
    if code < 0x140000 {
      ContinuationUnfold(code);
      assert s[0] == 0xF4 as char && s[1] == Cont(code / 4096) && s[2] == Cont(code / 64) && s[3] == Cont(code);
      hide Continuation, Cont, UcnToUtf8, HeadByte;
      LargeDecodes(code, s);
    } else {
      LargeHead(code);
      assert s[0] == HeadByte(code) as char;
      hide Continuation, UcnToUtf8, HeadByte;
      assert DecodeOne(s) == None;
    }
  }

  lemma LargeHead(code: uint32)
    requires code >= 0x140000
    ensures HeadByte(code) >= 0xF5
  {}

  lemma LargeDecodes(code: nat, s: string)
    requires 0x110000 <= code < 0x140000 && |s| > 3
    requires s[0] == 0xF4 as char && s[1] == Cont(code / 4096) && s[2] == Cont(code / 64) && s[3] == Cont(code)
    ensures Decode(s) == None
  {
    Sextets(code);
    Sextets(code / 64);
    Sextets(code / 4096);
    hide Cont, Low, IsCont;
    assert DecodeOne(s) == None;
  }

  lemma TooLarge(code: int)
    requires code >= 0x110000
    ensures !EncodesRight(code)
  {}

  /** What is encoded decodes, and then to itself, if and only if every code point is in the right ranges. */
  lemma {:induction false} EncodeAllDecodes(codes: seq<Code>)
    ensures Decode(EncodeAll(codes)).Some? <==> forall i | 0 <= i < |codes| :: EncodesRight(codes[i])
    ensures Decode(EncodeAll(codes)).Some? ==> Decode(EncodeAll(codes)) == Some(codes)
  {
    if codes != [] {
      var code, rest := codes[0], EncodeAll(codes[1..]);
      EncodeAllDecodes(codes[1..]);
      HeadIsNoContinuation(codes[1..]);
      hide EncodesRight, UcnToUtf8, Decode, IsCont;
      assert codes == [code] + codes[1..];
      assert forall i | 1 <= i < |codes| :: codes[i] == codes[1..][i - 1];
      assert forall i | 0 <= i < |codes| - 1 :: codes[1..][i] == codes[i + 1];
      if code >= 0x110000 {
        LargeIsRefused(code, rest);
        assert !EncodesRight(code) by { TooLarge(code); }
      } else if EncodesRight(code) {
        RightDecodes(code, rest);
      } else {
        ShortIsRefused(code, rest);
      }
    }
  }

  /** So the shortened octets of a lone code point are refused. */
  lemma {:induction false} WrongIsUndecodable(code: int)
    requires IsScalar(code) && !EncodesRight(code)
    ensures Decode(UcnToUtf8(code).value) == None
  {
    ShortIsRefused(code, "");
    hide Decode, UcnToUtf8;
    assert UcnToUtf8(code).value + "" == UcnToUtf8(code).value;
  }
}
