/** Bytes, the bytewise key order of the store, big-endian integers and UTF-8. */
module Bytes {

  type byte = b: int | 0 <= b < 256

  /** Record separator of the database schema. */
  const SEP: byte := 0xFF

  // ---------------------------------------------------------------- key order

  /** Strict bytewise order, the order in which the store keeps its keys. */
  predicate Less(a: seq<byte>, b: seq<byte>) {
    b != [] && (a == [] || a[0] < b[0] || (a[0] == b[0] && Less(a[1..], b[1..])))
  }

  predicate Leq(a: seq<byte>, b: seq<byte>) {
    a == b || Less(a, b)
  }

  lemma {:induction false} LessTransitive(a: seq<byte>, b: seq<byte>, c: seq<byte>)
    requires Less(a, b) && Less(b, c)
    ensures Less(a, c)
  {
    if a != [] && a[0] == b[0] && b[0] == c[0] {
      LessTransitive(a[1..], b[1..], c[1..]);
    }
  }

  lemma {:induction false} LessTotal(a: seq<byte>, b: seq<byte>)
    ensures a == b || Less(a, b) || Less(b, a)
    ensures !(Less(a, b) && Less(b, a))
    ensures !Less(a, a)
  {
    if a != [] {
      LessTotal(a[1..], a[1..]);
    }
    if a != [] && b != [] {
      LessTotal(a[1..], b[1..]);
      if a[0] == b[0] && a[1..] == b[1..] {
        assert a == [a[0]] + a[1..] == b;
      }
    }
  }

  /** A common prefix does not influence the order. */
  lemma {:induction false} LessUnderPrefix(p: seq<byte>, a: seq<byte>, b: seq<byte>)
    ensures Less(p + a, p + b) <==> Less(a, b)
  {
    if p == [] {
      assert p + a == a && p + b == b;
    } else {
      assert (p + a)[1..] == p[1..] + a && (p + b)[1..] == p[1..] + b;
      LessUnderPrefix(p[1..], a, b);
    }
  }

  /** A key never sorts before its own prefixes. */
  lemma {:induction false} PrefixLeq(p: seq<byte>, a: seq<byte>)
    requires p <= a
    ensures Leq(p, a)
  {
    if p != a && p != [] {
      PrefixLeq(p[1..], a[1..]);
    }
  }

  /** The keys that start with `p` form an interval of the bytewise order. */
  lemma {:induction false} PrefixInterval(p: seq<byte>, x: seq<byte>, y: seq<byte>, z: seq<byte>)
    requires Leq(x, y) && Leq(y, z)
    requires p <= x && p <= z
    ensures p <= y
  {
    if p != [] && x != y && y != z {
      assert x[0] == p[0] == z[0] == y[0];
      PrefixInterval(p[1..], x[1..], y[1..], z[1..]);
      assert y == [y[0]] + y[1..] && p == [p[0]] + p[1..];
    }
  }

  // ------------------------------------------------------- fixed-width integers

  function Pow256(w: nat): (r: nat)
    ensures r > 0
  {
    if w == 0 then 1 else 256 * Pow256(w - 1)
  }

  /** The `w` low-order bytes of `n`, most significant first. */
  function BigEndian(n: nat, w: nat): (s: seq<byte>)
    ensures |s| == w
  {
    if w == 0 then [] else BigEndian(n / 256, w - 1) + [n % 256]
  }

  function FromBigEndian(s: seq<byte>): (n: nat)
    ensures n < Pow256(|s|)
  {
    if s == [] then 0 else FromBigEndian(s[..|s| - 1]) * 256 + s[|s| - 1]
  }

  lemma {:induction false} BigEndianInverse(n: nat, w: nat)
    requires n < Pow256(w)
    ensures FromBigEndian(BigEndian(n, w)) == n
  {
    if w > 0 {
      BigEndianInverse(n / 256, w - 1);
      assert BigEndian(n, w)[..w - 1] == BigEndian(n / 256, w - 1);
    }
  }

  lemma {:induction false} FromBigEndianInverse(s: seq<byte>)
    ensures BigEndian(FromBigEndian(s), |s|) == s
  {
    if s != [] {
      var init, last := s[..|s| - 1], s[|s| - 1];
      FromBigEndianInverse(init);
      var n := FromBigEndian(s);
      assert n / 256 == FromBigEndian(init) && n % 256 == last;
      assert s == init + [last];
    }
  }

  /** Numeric order is bytewise order, whatever follows the two integers. */
  lemma {:induction false} BigEndianOrder(m: nat, n: nat, w: nat, x: seq<byte>, y: seq<byte>)
    requires m < n < Pow256(w)
    ensures Less(BigEndian(m, w) + x, BigEndian(n, w) + y)
  {
    var (mh, nh) := (m / 256, n / 256);
    var (x', y') := ([m % 256] + x, [n % 256] + y);
    assert BigEndian(m, w) + x == BigEndian(mh, w - 1) + x';
    assert BigEndian(n, w) + y == BigEndian(nh, w - 1) + y';
    if mh < nh {
      BigEndianOrder(mh, nh, w - 1, x', y');
    } else {
      assert Less(x', y');
      LessUnderPrefix(BigEndian(mh, w - 1), x', y');
    }
  }

  // ------------------------------------------------------------------- UTF-8

  predicate Continuation(b: byte) {
    0x80 <= b <= 0xBF
  }

  /** Length of the well-formed character at the front of `s`; 0 when there is none. */
  function CharWidth(s: seq<byte>): (w: nat)
    ensures w <= |s|
  {
    if s == [] then 0
    else if s[0] < 0x80 then 1
    else if |s| >= 2 && 0xC2 <= s[0] <= 0xDF && Continuation(s[1]) then 2
    else if |s| >= 3 && 0xE0 <= s[0] <= 0xEF && Continuation(s[1]) && Continuation(s[2])
            && (s[0] == 0xE0 ==> 0xA0 <= s[1]) && (s[0] == 0xED ==> s[1] <= 0x9F) then 3
    else if |s| >= 4 && 0xF0 <= s[0] <= 0xF4
            && Continuation(s[1]) && Continuation(s[2]) && Continuation(s[3])
            && (s[0] == 0xF0 ==> 0x90 <= s[1]) && (s[0] == 0xF4 ==> s[1] <= 0x8F) then 4
    else 0
  }

  predicate ValidUtf8(s: seq<byte>) {
    s == [] || (CharWidth(s) > 0 && ValidUtf8(s[CharWidth(s)..]))
  }

  /** The separator is an intentionally invalid byte: no string contains it. */
  lemma {:induction false} SepNotInUtf8(s: seq<byte>)
    requires ValidUtf8(s)
    ensures SEP !in s
  {
    if s != [] {
      var w := CharWidth(s);
      SepNotInUtf8(s[w..]);
      assert s == s[..w] + s[w..];
      assert forall i :: 0 <= i < w ==> s[i] != SEP;
    }
  }

  // ------------------------------------------------------- UTF-8 as the code of characters

  /** A Unicode scalar value: a code point that is not a surrogate. */
  predicate Scalar(c: nat) {
    c <= 0x10FFFF && !(0xD800 <= c <= 0xDFFF)
  }

  /** The bytes of a character, by the arithmetic of section 3 of RFC 3629. */
  function Utf8(c: nat): (s: seq<byte>)
    requires Scalar(c)
    ensures 1 <= |s| <= 4
  {
    if c < 0x80 then [c]
    else if c < 0x800 then [0xC0 + c / 0x40, 0x80 + c % 0x40]
    else if c < 0x10000 then [0xE0 + c / 0x1000, 0x80 + c / 0x40 % 0x40, 0x80 + c % 0x40]
    else [0xF0 + c / 0x40000, 0x80 + c / 0x1000 % 0x40, 0x80 + c / 0x40 % 0x40, 0x80 + c % 0x40]
  }

  /** The bytes of a text. */
  function TextBytes(text: seq<nat>): seq<byte>
    requires forall c :: c in text ==> Scalar(c)
  {
    if text == [] then [] else Utf8(text[0]) + TextBytes(text[1..])
  }

  /** The bytes of a character are recognised as one character, whatever follows. */
  lemma CharRead(c: nat, rest: seq<byte>)
    requires Scalar(c)
    ensures CharWidth(Utf8(c) + rest) == |Utf8(c)|
  {
    var s := Utf8(c) + rest;
    if 0x80 <= c < 0x800 {
      assert s[0] == 0xC0 + c / 0x40 && s[1] == 0x80 + c % 0x40;
    } else if 0x800 <= c < 0x10000 {
      ReadThree(c, s);
    } else if c >= 0x10000 {
      ReadFour(c, s);
    }
  }

  lemma ReadThree(c: nat, s: seq<byte>)
    requires 0x800 <= c < 0x10000 && Scalar(c) && |s| >= 3
    requires s[0] == 0xE0 + c / 0x1000 && s[1] == 0x80 + c / 0x40 % 0x40 && s[2] == 0x80 + c % 0x40
    ensures CharWidth(s) == 3
  {
    var d := c / 0x40;
    assert c / 0x1000 == d / 0x40;
    assert 0x20 <= d < 0x400 && !(0x360 <= d < 0x380);
  }

  lemma ReadFour(c: nat, s: seq<byte>)
    requires 0x10000 <= c <= 0x10FFFF && |s| >= 4
    requires s[0] == 0xF0 + c / 0x40000 && s[1] == 0x80 + c / 0x1000 % 0x40
    requires s[2] == 0x80 + c / 0x40 % 0x40 && s[3] == 0x80 + c % 0x40
    ensures CharWidth(s) == 4
  {
    var d := c / 0x1000;
    assert c / 0x40000 == d / 0x40;
    assert 0x10 <= d < 0x110;
  }

  /** Reading six bits per digit. */
  lemma SixBits(a: int, b: int)
    requires 0 <= b < 0x40
    ensures (a * 0x40 + b) / 0x40 == a && (a * 0x40 + b) % 0x40 == b
  {
  }

  lemma ThreeDigits(a: int, b: int, d: int)
    requires 0 <= a && 0 <= b < 0x40 && 0 <= d < 0x40
    ensures var c := a * 0x1000 + b * 0x40 + d;
            c / 0x1000 == a && c / 0x40 % 0x40 == b && c % 0x40 == d
  {
    var c := a * 0x1000 + b * 0x40 + d;
    assert c == (a * 0x40 + b) * 0x40 + d;
    SixBits(a * 0x40 + b, d);
    SixBits(a, b);
    assert c / 0x1000 == c / 0x40 / 0x40;
  }

  lemma FourDigits(a: int, b: int, d: int, e: int)
    requires 0 <= a && 0 <= b < 0x40 && 0 <= d < 0x40 && 0 <= e < 0x40
    ensures var c := a * 0x40000 + b * 0x1000 + d * 0x40 + e;
            c / 0x40000 == a && c / 0x1000 % 0x40 == b && c / 0x40 % 0x40 == d && c % 0x40 == e
  {
    var c := a * 0x40000 + b * 0x1000 + d * 0x40 + e;
    assert c == (a * 0x40 + b) * 0x1000 + d * 0x40 + e;
    ThreeDigits(a * 0x40 + b, d, e);
    SixBits(a, b);
    assert c / 0x40000 == c / 0x1000 / 0x40;
  }

  /** A recognised character is the code of a scalar value. */
  lemma CharCoded(s: seq<byte>) returns (c: nat)
    requires CharWidth(s) > 0
    ensures Scalar(c) && Utf8(c) == s[..CharWidth(s)]
  {
    if CharWidth(s) == 1 {
      c := s[0];
    } else if CharWidth(s) == 2 {
      c := CodedTwo(s);
    } else if CharWidth(s) == 3 {
      c := CodedThree(s);
    } else {
      c := CodedFour(s);
    }
  }

  lemma CodedTwo(s: seq<byte>) returns (c: nat)
    requires CharWidth(s) == 2
    ensures Scalar(c) && Utf8(c) == s[..2]
  {
    var a: int, b: int := s[0] - 0xC0, s[1] - 0x80;
    c := a * 0x40 + b;
    SixBits(a, b);
    assert s[..2] == [s[0], s[1]];
  }

  lemma CodedThree(s: seq<byte>) returns (c: nat)
    requires CharWidth(s) == 3
    ensures Scalar(c) && Utf8(c) == s[..3]
  {
    var a: int, b: int, d: int := s[0] - 0xE0, s[1] - 0x80, s[2] - 0x80;
    c := a * 0x1000 + b * 0x40 + d;
    ThreeDigits(a, b, d);
    assert 0x800 <= c < 0x10000;
    assert s[..3] == [s[0], s[1], s[2]];
  }

  lemma CodedFour(s: seq<byte>) returns (c: nat)
    requires CharWidth(s) == 4
    ensures Scalar(c) && Utf8(c) == s[..4]
  {
    var a: int, b: int, d: int, e: int := s[0] - 0xF0, s[1] - 0x80, s[2] - 0x80, s[3] - 0x80;
    c := a * 0x40000 + b * 0x1000 + d * 0x40 + e;
    FourDigits(a, b, d, e);
    assert 0x10000 <= c <= 0x10FFFF;
    assert s[..4] == [s[0], s[1], s[2], s[3]];
  }

  lemma {:induction false} TextIsValid(text: seq<nat>)
    requires forall c :: c in text ==> Scalar(c)
    ensures ValidUtf8(TextBytes(text))
  {
    if text != [] {
      var rest := TextBytes(text[1..]);
      TextIsValid(text[1..]);
      CharRead(text[0], rest);
      assert (Utf8(text[0]) + rest)[|Utf8(text[0])|..] == rest;
    }
  }

  lemma {:induction false} ValidIsText(s: seq<byte>) returns (text: seq<nat>)
    requires ValidUtf8(s)
    ensures (forall c :: c in text ==> Scalar(c)) && TextBytes(text) == s
  {
    if s == [] {
      text := [];
    } else {
      var w := CharWidth(s);
      var c := CharCoded(s);
      var rest := ValidIsText(s[w..]);
      text := [c] + rest;
      assert text[1..] == rest && s == s[..w] + s[w..];
    }
  }

  /** The strings of the model are exactly the texts over the Unicode scalar values. */
  lemma ValidExactly(s: seq<byte>)
    ensures ValidUtf8(s) <==> exists text: seq<nat> :: (forall c :: c in text ==> Scalar(c)) && TextBytes(text) == s
  {
    if ValidUtf8(s) {
      var text := ValidIsText(s);
    }
    if text: seq<nat> :| (forall c :: c in text ==> Scalar(c)) && TextBytes(text) == s {
      TextIsValid(text);
    }
  }
}
