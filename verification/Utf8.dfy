/** UTF-8 (section 3 of RFC 3629), and the strict check of it. */
module Utf8 {
  import opened Bytes

  /** A Unicode scalar value. */
  predicate IsScalar(cp: nat) {
    cp < 0xD800 || 0xE000 <= cp < 0x11_0000
  }

  /** The octets of a code point. */
  function Encode(cp: nat): (s: seq<Byte>)
    requires cp < 0x11_0000
    ensures 1 <= |s| <= 4
  {
    if cp < 0x80 then [cp]
    else if cp < 0x800 then [0xC0 + cp / 0x40, 0x80 + cp % 0x40]
    else if cp < 0x1_0000 then [0xE0 + cp / 0x1000, 0x80 + cp / 0x40 % 0x40, 0x80 + cp % 0x40]
    else [0xF0 + cp / 0x4_0000, 0x80 + cp / 0x1000 % 0x40, 0x80 + cp / 0x40 % 0x40, 0x80 + cp % 0x40]
  }

  function EncodeAll(cps: seq<nat>): seq<Byte>
    requires AllScalar(cps)
  {
    if cps == [] then [] else Encode(cps[0]) + EncodeAll(cps[1..])
  }

  ghost predicate AllScalar(cps: seq<nat>) {
    forall i :: 0 <= i < |cps| ==> IsScalar(cps[i])
  }

  // ---- the check, byte by byte ----

  /** utf8_lead_length: how long a sequence c leads, 0 for none. One byte below 0x80
      is a sequence of its own. */
  function LeadLength(c: Byte): nat {
    if 0xC2 <= c <= 0xDF then 2 else if 0xE0 <= c <= 0xEF then 3 else if 0xF0 <= c <= 0xF4 then 4 else 0
  }

  predicate IsTail(c: Byte) {
    0x80 <= c < 0xC0
  }

  /** The bits gathered from the lead byte and the tail bytes before n. */
  function Gather(s: seq<Byte>, n: nat): nat
    requires 1 <= n <= |s|
  {
    if n == 1 then
      if LeadLength(s[0]) == 2 then s[0] % 0x20 else if LeadLength(s[0]) == 3 then s[0] % 0x10 else s[0] % 0x08
    else Gather(s, n - 1) * 0x40 + s[n - 1] % 0x40
  }

  function Least(len: nat): nat {
    if len == 2 then 0x80 else if len == 3 then 0x800 else 0x1_0000
  }

  /** The length of the well-formed sequence that opens s, 0 for none. */
  function SequenceLength(s: seq<Byte>): (n: nat)
    ensures n <= |s|
  {
    if s == [] then 0
    else if s[0] < 0x80 then 1
    else
      var len := LeadLength(s[0]);
      if len == 0 || |s| < len then 0
      else if exists k | 1 <= k < len :: !IsTail(s[k]) then 0
      else
        var cp := Gather(s, len);
        if cp < Least(len) || cp > 0x10_FFFF || 0xD800 <= cp <= 0xDFFF then 0 else len
  }

  /** hts_isStringUTF8. */
  predicate IsUtf8(s: seq<Byte>) {
    s == [] || (SequenceLength(s) > 0 && IsUtf8(s[SequenceLength(s)..]))
  }

  /** The code point of the sequence that opens s. */
  function CodePoint(s: seq<Byte>): nat
    requires SequenceLength(s) > 0
  {
    if s[0] < 0x80 then s[0] else Gather(s, SequenceLength(s))
  }

  /** The text of s, every byte outside a well-formed sequence read as U+FFFD. */
  function Repaired(s: seq<Byte>): seq<nat> {
    if s == [] then []
    else if SequenceLength(s) > 0 then [CodePoint(s)] + Repaired(s[SequenceLength(s)..])
    else [0xFFFD] + Repaired(s[1..])
  }

  // ---- the check is exact ----

  lemma Low(high: nat, low: nat)
    requires low < 0x40
    ensures (high * 0x40 + low) / 0x40 == high && (high * 0x40 + low) % 0x40 == low
  {
  }

  lemma ThreeDigits(a: nat, b: nat, c: nat)
    requires b < 0x40 && c < 0x40
    ensures var cp := (a * 0x40 + b) * 0x40 + c;
            cp / 0x1000 == a && cp / 0x40 % 0x40 == b && cp % 0x40 == c
  {
    Low(a * 0x40 + b, c);
    Low(a, b);
  }

  lemma FourDigits(a: nat, b: nat, c: nat, d: nat)
    requires b < 0x40 && c < 0x40 && d < 0x40
    ensures var cp := ((a * 0x40 + b) * 0x40 + c) * 0x40 + d;
            cp / 0x4_0000 == a && cp / 0x1000 % 0x40 == b && cp / 0x40 % 0x40 == c && cp % 0x40 == d
  {
    Low((a * 0x40 + b) * 0x40 + c, d);
    ThreeDigits(a, b, c);
    assert (((a * 0x40 + b) * 0x40 + c) * 0x40 + d) / 0x1000 == a * 0x40 + b;
    Low(a, b);
  }

  /** The digits to base 64 that a sequence of n bytes carries. */
  lemma Gathered(s: seq<Byte>, n: nat, lead: nat)
    requires 2 <= n <= |s| && n <= 4
    requires lead == Gather(s, 1)
    ensures n == 2 ==> Gather(s, n) == lead * 0x40 + s[1] % 0x40
    ensures n == 3 ==> Gather(s, n) == (lead * 0x40 + s[1] % 0x40) * 0x40 + s[2] % 0x40
    ensures n == 4 ==> Gather(s, n) == ((lead * 0x40 + s[1] % 0x40) * 0x40 + s[2] % 0x40) * 0x40 + s[3] % 0x40
  {
    assert Gather(s, 2) == lead * 0x40 + s[1] % 0x40;
    if n > 2 {
      assert Gather(s, 3) == Gather(s, 2) * 0x40 + s[2] % 0x40;
    }
  }

  lemma AcceptedTwo(s: seq<Byte>)
    requires SequenceLength(s) == 2
    ensures IsScalar(CodePoint(s)) && Encode(CodePoint(s)) == s[..2]
  {
    Gathered(s, 2, Gather(s, 1));
    Low(Gather(s, 1), s[1] % 0x40);
    assert IsTail(s[1]);
  }

  lemma AcceptedThree(s: seq<Byte>)
    requires SequenceLength(s) == 3
    ensures IsScalar(CodePoint(s)) && Encode(CodePoint(s)) == s[..3]
  {
    Gathered(s, 3, Gather(s, 1));
    assert IsTail(s[1]) && IsTail(s[2]);
    ThreeEncoded(s[0], s[1], s[2]);
    assert s[..3] == [s[0], s[1], s[2]];
  }

  lemma ThreeEncoded(a: Byte, b: Byte, c: Byte)
    requires 0xE0 <= a <= 0xEF && IsTail(b) && IsTail(c)
    ensures var cp := (a % 0x10 * 0x40 + b % 0x40) * 0x40 + c % 0x40;
            0x800 <= cp < 0x1_0000 ==> Encode(cp) == [a, b, c]
  {
    ThreeDigits(a % 0x10, b % 0x40, c % 0x40);
  }

  lemma AcceptedFour(s: seq<Byte>)
    requires SequenceLength(s) == 4
    ensures IsScalar(CodePoint(s)) && Encode(CodePoint(s)) == s[..4]
  {
    Gathered(s, 4, Gather(s, 1));
    assert IsTail(s[1]) && IsTail(s[2]) && IsTail(s[3]);
    FourEncoded(s[0], s[1], s[2], s[3]);
    assert s[..4] == [s[0], s[1], s[2], s[3]];
  }

  lemma FourEncoded(a: Byte, b: Byte, c: Byte, d: Byte)
    requires 0xF0 <= a <= 0xF4 && IsTail(b) && IsTail(c) && IsTail(d)
    ensures var cp := ((a % 0x08 * 0x40 + b % 0x40) * 0x40 + c % 0x40) * 0x40 + d % 0x40;
            0x1_0000 <= cp < 0x11_0000 ==> Encode(cp) == [a, b, c, d]
  {
    FourDigits(a % 0x08, b % 0x40, c % 0x40, d % 0x40);
  }

  /** What passes is the encoding of a scalar value. */
  lemma AcceptedIsEncoded(s: seq<Byte>)
    requires SequenceLength(s) > 0
    ensures IsScalar(CodePoint(s)) && Encode(CodePoint(s)) == s[..SequenceLength(s)]
  {
    if s[0] >= 0x80 {
      match SequenceLength(s)
      case 2 => AcceptedTwo(s);
      case 3 => AcceptedThree(s);
      case _ => AcceptedFour(s);
    }
  }

  lemma EncodedTwo(cp: nat, s: seq<Byte>)
    requires 0x80 <= cp < 0x800 && |s| >= 2 && s[..2] == Encode(cp)
    ensures SequenceLength(s) == 2 && CodePoint(s) == cp
  {
    assert s[0] == s[..2][0] && s[1] == s[..2][1];
    Gathered(s, 2, cp / 0x40);
  }

  lemma DigitsAccepted(cp: nat, s: seq<Byte>, a: nat, b: nat, c: nat)
    requires |s| >= 3 && a < 0x10 && b < 0x40 && c < 0x40
    requires s[0] == 0xE0 + a && s[1] == 0x80 + b && s[2] == 0x80 + c
    requires cp == (a * 0x40 + b) * 0x40 + c && IsScalar(cp) && cp >= 0x800
    ensures SequenceLength(s) == 3 && CodePoint(s) == cp
  {
    assert s[0] % 0x10 == a && s[1] % 0x40 == b && s[2] % 0x40 == c;
    Gathered(s, 3, a);
  }

  lemma FourDigitsAccepted(cp: nat, s: seq<Byte>, a: nat, b: nat, c: nat, d: nat)
    requires |s| >= 4 && a < 5 && b < 0x40 && c < 0x40 && d < 0x40
    requires s[0] == 0xF0 + a && s[1] == 0x80 + b && s[2] == 0x80 + c && s[3] == 0x80 + d
    requires cp == ((a * 0x40 + b) * 0x40 + c) * 0x40 + d && 0x1_0000 <= cp < 0x11_0000
    ensures SequenceLength(s) == 4 && CodePoint(s) == cp
  {
    assert s[0] % 0x08 == a && s[1] % 0x40 == b && s[2] % 0x40 == c && s[3] % 0x40 == d;
    Gathered(s, 4, a);
  }

  lemma EncodedThree(cp: nat, s: seq<Byte>)
    requires IsScalar(cp) && 0x800 <= cp < 0x1_0000 && |s| >= 3 && s[..3] == Encode(cp)
    ensures SequenceLength(s) == 3 && CodePoint(s) == cp
  {
    var a, b, c := cp / 0x1000, cp / 0x40 % 0x40, cp % 0x40;
    assert s[0] == s[..3][0] && s[1] == s[..3][1] && s[2] == s[..3][2];
    DigitsAccepted(cp, s, a, b, c);
  }

  lemma FourDigitsOf(cp: nat)
    requires cp < 0x11_0000
    ensures cp == ((cp / 0x4_0000 * 0x40 + cp / 0x1000 % 0x40) * 0x40 + cp / 0x40 % 0x40) * 0x40 + cp % 0x40
    ensures cp / 0x4_0000 < 5
  {
    var q := cp / 0x40;
    var r := q / 0x40;
    assert cp / 0x1000 == r && cp / 0x4_0000 == r / 0x40;
  }

  lemma EncodedFour(cp: nat, s: seq<Byte>)
    requires 0x1_0000 <= cp < 0x11_0000 && |s| >= 4 && s[..4] == Encode(cp)
    ensures SequenceLength(s) == 4 && CodePoint(s) == cp
  {
    var a, b, c, d := cp / 0x4_0000, cp / 0x1000 % 0x40, cp / 0x40 % 0x40, cp % 0x40;
    FourDigitsOf(cp);
    assert s[0] == s[..4][0] && s[1] == s[..4][1] && s[2] == s[..4][2] && s[3] == s[..4][3];
    FourDigitsAccepted(cp, s, a, b, c, d);
  }

  /** Every scalar value's encoding passes, and is read back. */
  lemma EncodedIsAccepted(cp: nat, tail: seq<Byte>)
    requires IsScalar(cp)
    ensures SequenceLength(Encode(cp) + tail) == |Encode(cp)| && CodePoint(Encode(cp) + tail) == cp
  {
    var s := Encode(cp) + tail;
    assert s[..|Encode(cp)|] == Encode(cp);
    if cp < 0x80 {
    } else if cp < 0x800 {
      EncodedTwo(cp, s);
    } else if cp < 0x1_0000 {
      EncodedThree(cp, s);
    } else {
      EncodedFour(cp, s);
    }
  }

  // ---- whole strings ----

  /** A string passes exactly when it encodes a text, which is then the one it is
      read as. */
  lemma {:induction false} AcceptedTextIsEncoded(s: seq<Byte>)
    requires IsUtf8(s)
    ensures AllScalar(Repaired(s)) && EncodeAll(Repaired(s)) == s
  {
    if s != [] {
      var rest := s[SequenceLength(s)..];
      FirstCharacter(s);
      AcceptedTextIsEncoded(rest);
      JoinFirst(s, Repaired(rest));
    }
  }

  lemma JoinFirst(s: seq<Byte>, cps: seq<nat>)
    requires SequenceLength(s) > 0 && AllScalar(cps) && EncodeAll(cps) == s[SequenceLength(s)..]
    ensures AllScalar([CodePoint(s)] + cps) && EncodeAll([CodePoint(s)] + cps) == s
  {
    AcceptedIsEncoded(s);
    EncodeAllCons(CodePoint(s), cps);
    assert s == s[..SequenceLength(s)] + s[SequenceLength(s)..];
  }

  lemma FirstCharacter(s: seq<Byte>)
    requires s != [] && IsUtf8(s)
    ensures SequenceLength(s) > 0 && IsUtf8(s[SequenceLength(s)..])
    ensures Repaired(s) == [CodePoint(s)] + Repaired(s[SequenceLength(s)..])
  {
  }

  lemma EncodeAllCons(cp: nat, cps: seq<nat>)
    requires IsScalar(cp) && AllScalar(cps)
    ensures AllScalar([cp] + cps) && EncodeAll([cp] + cps) == Encode(cp) + EncodeAll(cps)
  {
    assert ([cp] + cps)[1..] == cps;
  }

  lemma {:induction false} EncodedTextIsAccepted(cps: seq<nat>)
    requires AllScalar(cps)
    ensures IsUtf8(EncodeAll(cps)) && Repaired(EncodeAll(cps)) == cps
  {
    if cps != [] {
      var tail := EncodeAll(cps[1..]);
      EncodedIsAccepted(cps[0], tail);
      EncodedTextIsAccepted(cps[1..]);
      assert (Encode(cps[0]) + tail)[|Encode(cps[0])|..] == tail;
    }
  }

  lemma {:induction false} Utf8Concat(s: seq<Byte>, t: seq<Byte>)
    requires IsUtf8(s) && IsUtf8(t)
    ensures IsUtf8(s + t)
  {
    if s == [] {
      assert s + t == t;
    } else {
      var rest := s[SequenceLength(s)..];
      FirstCharacter(s);
      Utf8Concat(rest, t);
      FirstStays(s, t);
    }
  }

  lemma FirstStays(s: seq<Byte>, t: seq<Byte>)
    requires SequenceLength(s) > 0 && IsUtf8(s[SequenceLength(s)..] + t)
    ensures IsUtf8(s + t)
  {
    var n := SequenceLength(s);
    var rest := s[n..] + t;
    AcceptedIsEncoded(s);
    EncodedIsAccepted(CodePoint(s), rest);
    assert s + t == s[..n] + rest;
    assert (s + t)[n..] == rest;
  }
}
