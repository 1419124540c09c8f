/** The C text helpers that several components share. A C string is a `string`
    without its closing NUL, one char a byte. */
module CText {

  const INT64_MIN := -0x8000_0000_0000_0000
  const INT64_MAX := 0x7FFF_FFFF_FFFF_FFFF
  const SIZE_MOD := 0x1_0000_0000_0000_0000

  type Int64 = x: int | INT64_MIN <= x <= INT64_MAX

  /** hichar: ASCII uppercasing of one byte. */
  function Upper(c: char): char {
    if 'a' <= c <= 'z' then (c as int - 32) as char else c
  }

  function Fold(s: string): (f: string)
    ensures |f| == |s|
  {
    if s == "" then "" else [Upper(s[0])] + Fold(s[1..])
  }

  lemma {:induction false} FoldAt(s: string, i: nat)
    requires i < |s|
    ensures Fold(s)[i] == Upper(s[i])
  {
    if i > 0 {
      FoldAt(s[1..], i - 1);
    }
  }

  /** strcmpnocase(a, b) == 0. */
  predicate EqualNoCase(a: string, b: string) {
    Fold(a) == Fold(b)
  }

  /** One byte, or the two cases of one letter. */
  predicate SameLetter(c: char, d: char) {
    c == d || ('a' <= c <= 'z' && c as int == d as int + 32) || ('a' <= d <= 'z' && d as int == c as int + 32)
  }

  predicate SameLetters(s: string, t: string) {
    |s| == |t| && forall i :: 0 <= i < |s| ==> SameLetter(s[i], t[i])
  }

  lemma FoldsExactly(s: string, t: string)
    ensures EqualNoCase(s, t) <==> SameLetters(s, t)
  {
    if |s| == |t| {
      forall i | 0 <= i < |s| ensures Fold(s)[i] == Fold(t)[i] <==> SameLetter(s[i], t[i]) {
        FoldAt(s, i);
        FoldAt(t, i);
      }
    }
  }

  /** A domain without the one leading dot that the Netscape form writes. */
  function StripDot(domain: string): string {
    if domain != "" && domain[0] == '.' then domain[1..] else domain
  }

  predicate StartsWith(s: string, prefix: string) {
    |prefix| <= |s| && s[..|prefix|] == prefix
  }

  /** The offset of the first c in s, or |s|: strchr. */
  function Find(s: string, c: char): (i: nat)
    ensures i <= |s|
    ensures i < |s| ==> s[i] == c
    ensures forall j :: 0 <= j < i ==> s[j] != c
  {
    if s == "" || s[0] == c then 0 else 1 + Find(s[1..], c)
  }

  lemma FindIs(s: string, c: char, i: nat)
    requires i <= |s| && (i < |s| ==> s[i] == c)
    requires forall j :: 0 <= j < i ==> s[j] != c
    ensures Find(s, c) == i
  {
  }

  /** The length of the run of c that opens s: strspn. */
  function Span(s: string, c: char): (i: nat)
    ensures i <= |s|
    ensures i < |s| ==> s[i] != c
    ensures forall j :: 0 <= j < i ==> s[j] == c
  {
    if s == "" || s[0] != c then 0 else 1 + Span(s[1..], c)
  }

  predicate IsDigit(c: char) {
    '0' <= c <= '9'
  }

  predicate AllDigits(s: string) {
    forall i :: 0 <= i < |s| ==> IsDigit(s[i])
  }

  function Digit(d: nat): (c: char)
    requires d < 10
    ensures IsDigit(c)
  {
    ('0' as int + d) as char
  }

  /** printf("%lld") of a number that is not negative. */
  function DecNat(n: nat): (s: string)
    ensures |s| > 0 && AllDigits(s)
  {
    if n < 10 then [Digit(n)] else DecNat(n / 10) + [Digit(n % 10)]
  }

  /** printf("%lld"). */
  function Dec(n: int): (s: string)
    ensures |s| > 0
    ensures forall i :: 0 <= i < |s| ==> IsDigit(s[i]) || s[i] == '-'
    ensures 0 <= n ==> AllDigits(s)
    ensures n < 0 ==> s[0] == '-'
  {
    if n < 0 then "-" + DecNat(-n) else DecNat(n)
  }

  /** The value of a run of digits. */
  function DecValue(s: string): nat
    requires AllDigits(s)
  {
    if s == "" then 0
    else 10 * DecValue(s[..|s| - 1]) + (s[|s| - 1] as int - '0' as int)
  }

  lemma {:induction false} DecNatValue(n: nat)
    ensures DecValue(DecNat(n)) == n
  {
    if n >= 10 {
      DecNatValue(n / 10);
      assert DecNat(n)[..|DecNat(n)| - 1] == DecNat(n / 10);
    } else {
      assert DecNat(n)[..0] == "";
    }
  }

  function Pow10(k: nat): nat {
    if k == 0 then 1 else 10 * Pow10(k - 1)
  }

  lemma {:induction false} DecNatLength(n: nat, k: nat)
    requires 0 < k && n < Pow10(k)
    ensures |DecNat(n)| <= k
  {
    if n >= 10 {
      assert Pow10(k) == 10 * Pow10(k - 1);
      DecNatLength(n / 10, k - 1);
    }
  }

  /** A signed 64-bit number prints in at most 20 bytes. */
  lemma DecLength(n: Int64)
    ensures |Dec(n)| <= 20
  {
    assert Pow10(5) == 100000;
    assert Pow10(10) == 10000000000;
    assert Pow10(15) == 1000000000000000;
    assert Pow10(19) == 10000000000000000000;
    var magnitude: int := n;
    DecNatLength(if n < 0 then -magnitude else magnitude, 19);
  }

  // ---- lists of lines ----

  function Cat(parts: seq<string>): string {
    if parts == [] then "" else parts[0] + Cat(parts[1..])
  }

  lemma {:induction false} CatConcat(a: seq<string>, b: seq<string>)
    ensures Cat(a + b) == Cat(a) + Cat(b)
  {
    if a == [] {
      assert a + b == b;
    } else {
      CatConcat(a[1..], b);
      CatFirst(a, b);
    }
  }

  lemma CatFirst(a: seq<string>, b: seq<string>)
    requires a != []
    ensures Cat(a + b) == a[0] + Cat(a[1..] + b)
  {
    assert (a + b)[1..] == a[1..] + b;
  }

  lemma CatSplit(parts: seq<string>, i: nat)
    requires i < |parts|
    ensures Cat(parts) == Cat(parts[..i]) + parts[i] + Cat(parts[i + 1..])
    ensures Cat(parts[..i + 1]) == Cat(parts[..i]) + parts[i]
  {
    assert parts == parts[..i] + parts[i..];
    CatConcat(parts[..i], parts[i..]);
    assert parts[i..][1..] == parts[i + 1..];
    assert parts[..i + 1] == parts[..i] + [parts[i]];
    CatConcat(parts[..i], [parts[i]]);
    assert Cat([parts[i]]) == parts[i] + Cat([]);
  }
}
