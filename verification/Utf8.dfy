/**
 UTF-8 as the sources rely on it: text is a sequence of bytes, one `char` below
 256 for each byte, and a cut is only made at a character boundary.

 `CharWidth` follows the syntax of section 4 of RFC 3629.
 */
module Utf8 {

  /** A continuation byte, `10xxxxxx`. */
  predicate IsContinuation(b: char) {
    0x80 <= b as int < 0xC0
  }

  /** The width of the well-formed character `s` starts with, 0 when there is none. */
  function CharWidth(s: string): nat
    requires s != []
  {
    var b := s[0] as int;
    if b < 0x80 then 1
    else if 0xC2 <= b < 0xE0 && |s| >= 2 && IsContinuation(s[1]) then 2
    else if 0xE0 <= b < 0xF0 && |s| >= 3 && SecondByteFits(b, s[1]) && IsContinuation(s[2]) then 3
    else if 0xF0 <= b < 0xF5 && |s| >= 4 && SecondByteFits(b, s[1]) && IsContinuation(s[2]) && IsContinuation(s[3]) then 4
    else 0
  }

  /** The second byte of a wide character: no overlong form, no surrogate, nothing above U+10FFFF. */
  predicate SecondByteFits(first: int, second: char) {
    && IsContinuation(second)
    && (first == 0xE0 ==> 0xA0 <= second as int)
    && (first == 0xED ==> second as int < 0xA0)
    && (first == 0xF0 ==> 0x90 <= second as int)
    && (first == 0xF4 ==> second as int < 0x90)
  }

  predicate Valid(s: string) {
    s == [] || (var w := CharWidth(s); w > 0 && Valid(s[w..]))
  }

  /** `str::is_char_boundary`. */
  predicate IsCharBoundary(s: string, i: nat)
    requires i <= |s|
  {
    i == 0 || i == |s| || !IsContinuation(s[i])
  }

  /** The width of a first character does not depend on what follows it. */
  lemma CharWidthIsLocal(s: string, n: nat)
    requires s != [] && CharWidth(s) <= n <= |s| && CharWidth(s) > 0
    ensures CharWidth(s[..n]) == CharWidth(s)
  {
  }

  /** Cutting well-formed text at a character boundary gives two well-formed texts. */
  lemma {:induction false} CutAtBoundary(s: string, i: nat)
    requires Valid(s) && i <= |s| && IsCharBoundary(s, i)
    ensures Valid(s[..i]) && Valid(s[i..])
  {
    if i == 0 {
      assert s[i..] == s;
    } else {
      var w := CharWidth(s);
      assert w <= i;
      CutAtBoundary(s[w..], i - w);
      assert s[w..][i - w..] == s[i..];
      assert s[w..][..i - w] == s[..i][w..];
      CharWidthIsLocal(s, i);
    }
  }

  /** Boundaries are dense: of four consecutive positions one is a boundary. */
  lemma {:induction false} BoundaryWithinFour(s: string, i: nat)
    requires Valid(s) && 3 <= i <= |s|
    ensures exists j :: i - 3 <= j <= i && IsCharBoundary(s, j)
  {
    var w := CharWidth(s);
    if i <= 3 {
      assert IsCharBoundary(s, 0);
    } else if i - 3 <= w <= i {
      if w == |s| {
        assert IsCharBoundary(s, w);
      } else {
        assert CharWidth(s[w..]) > 0;
        assert !IsContinuation(s[w..][0]);
        assert IsCharBoundary(s, w);
      }
    } else {
      BoundaryWithinFour(s[w..], i - w);
      var j :| i - w - 3 <= j <= i - w && IsCharBoundary(s[w..], j);
      assert IsCharBoundary(s, j + w);
    }
  }

  lemma {:induction false} ValidConcat(s: string, t: string)
    requires Valid(s) && Valid(t)
    ensures Valid(s + t)
  {
    if s == [] {
      assert s + t == t;
    } else {
      var w := CharWidth(s);
      ValidConcat(s[w..], t);
      assert (s + t)[w..] == s[w..] + t;
      assert CharWidth(s + t) == w;
    }
  }

  lemma {:induction false} AsciiIsValid(s: string)
    requires forall i :: 0 <= i < |s| ==> s[i] as int < 0x80
    ensures Valid(s)
  {
    if s != [] {
      AsciiIsValid(s[1..]);
    }
  }

  // ---- The syntax is the encoding of characters --------------------------------------------------

  /** A Unicode scalar value. */
  predicate IsScalar(n: nat) {
    n < 0xD800 || 0xE000 <= n < 0x11_0000
  }

  /** Its bytes, section 3 of RFC 3629. */
  function Encoded(n: nat): string
    requires IsScalar(n)
  {
    if n < 0x80 then [n as char]
    else if n < 0x800 then [(0xC0 + n / 0x40) as char, (0x80 + n % 0x40) as char]
    else if n < 0x1_0000 then [(0xE0 + n / 0x1000) as char, (0x80 + n / 0x40 % 0x40) as char, (0x80 + n % 0x40) as char]
    else
      [(0xF0 + n / 0x4_0000) as char, (0x80 + n / 0x1000 % 0x40) as char,
       (0x80 + n / 0x40 % 0x40) as char, (0x80 + n % 0x40) as char]
  }

  /** The bytes of a character are taken for one character, whatever follows. */
  lemma {:induction false} EncodedIsOneCharacter(n: nat, rest: string)
    requires IsScalar(n)
    ensures CharWidth(Encoded(n) + rest) == |Encoded(n)|
  {
    var s := Encoded(n) + rest;
    assert n == n / 0x40 * 0x40 + n % 0x40;
    assert n / 0x40 == n / 0x1000 * 0x40 + n / 0x40 % 0x40;
    assert n / 0x1000 == n / 0x4_0000 * 0x40 + n / 0x1000 % 0x40;
    assert s[0] == Encoded(n)[0] && (n >= 0x80 ==> s[1] == Encoded(n)[1]);
  }

  lemma Digits(a: nat, b: nat)
    requires b < 0x40
    ensures (a * 0x40 + b) / 0x40 == a && (a * 0x40 + b) % 0x40 == b
  {
  }

  lemma ThreeDigits(a: nat, b: nat, c: nat)
    requires b < 0x40 && c < 0x40
    ensures var n := (a * 0x40 + b) * 0x40 + c;
      n / 0x1000 == a && n / 0x40 % 0x40 == b && n % 0x40 == c
  {
    Digits(a * 0x40 + b, c);
    Digits(a, b);
  }

  lemma FourDigits(a: nat, b: nat, c: nat, d: nat)
    requires b < 0x40 && c < 0x40 && d < 0x40
    ensures var n := ((a * 0x40 + b) * 0x40 + c) * 0x40 + d;
      n / 0x4_0000 == a && n / 0x1000 % 0x40 == b && n / 0x40 % 0x40 == c && n % 0x40 == d
  {
    ThreeDigits(a * 0x40 + b, c, d);
    ThreeDigits(a, b, c);
    Digits((a * 0x40 + b) * 0x40 + c, d);
    Digits(a, b);
  }

  /** And what is taken for one is the bytes of a character. */
  lemma {:induction false} OneCharacterIsEncoded(s: string) returns (n: nat)
    requires s != "" && CharWidth(s) > 0
    ensures CharWidth(s) <= |s| && IsScalar(n) && Encoded(n) == s[..CharWidth(s)]
  {
    var w := CharWidth(s);
    if w == 1 {
      n := s[0] as int;
    } else if w == 2 {
      n := TwoBytes(s);
    } else if w == 3 {
      n := ThreeBytes(s);
    } else {
      n := FourBytes(s);
    }
  }

  lemma TwoBytes(s: string) returns (n: nat)
    requires s != "" && CharWidth(s) == 2
    ensures |s| >= 2 && IsScalar(n) && Encoded(n) == s[..2]
  {
    var a, b := s[0] as int - 0xC0, s[1] as int - 0x80;
    n := a * 0x40 + b;
    Digits(a, b);
  }

  lemma ThreeBytes(s: string) returns (n: nat)
    requires s != "" && CharWidth(s) == 3
    ensures |s| >= 3 && IsScalar(n) && Encoded(n) == s[..3]
  {
    var a, b, c := s[0] as int - 0xE0, s[1] as int - 0x80, s[2] as int - 0x80;
    n := (a * 0x40 + b) * 0x40 + c;
    ThreeDigits(a, b, c);
  }

  lemma FourBytes(s: string) returns (n: nat)
    requires s != "" && CharWidth(s) == 4
    ensures |s| >= 4 && IsScalar(n) && Encoded(n) == s[..4]
  {
    var a, b, c, d := s[0] as int - 0xF0, s[1] as int - 0x80, s[2] as int - 0x80, s[3] as int - 0x80;
    n := ((a * 0x40 + b) * 0x40 + c) * 0x40 + d;
    FourDigits(a, b, c, d);
  }
}
