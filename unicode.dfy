/** UTF-8 as Rust's `String` uses it: `str::as_bytes` gives the UTF-8 form of
    a string, and `String::from_utf8` accepts exactly the well-formed byte
    sequences of Table 3-7 of the Unicode Standard (chapter 3, "UTF-8"). */
module Unicode {
  import opened Base

  /** A continuation byte, 10xxxxxx. */
  predicate IsContinuation(b: byte) {
    0x80 <= b <= 0xBF
  }

  /** The UTF-8 form of one Unicode scalar value. */
  function EncodeChar(c: char): (bs: seq<byte>)
    ensures 1 <= |bs| <= 4
  {
    var n := c as int;
    if n < 0x80 then [n]
    else if n < 0x800 then [0xC0 + n / 0x40, 0x80 + n % 0x40]
    else if n < 0x1_0000 then [0xE0 + n / 0x1000, 0x80 + (n / 0x40) % 0x40, 0x80 + n % 0x40]
    else [0xF0 + n / 0x4_0000, 0x80 + (n / 0x1000) % 0x40, 0x80 + (n / 0x40) % 0x40, 0x80 + n % 0x40]
  }

  /** The UTF-8 form of a string (`str::as_bytes`). */
  function Encode(s: string): (bs: seq<byte>)
    ensures |s| <= |bs| <= 4 * |s|
    ensures (forall i :: 0 <= i < |s| ==> s[i] as int < 0x80) ==>
      |bs| == |s| && forall i :: 0 <= i < |s| ==> bs[i] == s[i] as int
  {
    if s == [] then []
    else
      var bs := EncodeChar(s[0]) + Encode(s[1..]);
      assert forall i :: 1 <= i < |s| ==> s[1..][i - 1] == s[i];
      bs
  }

  /** The UTF-8 form of a concatenation is the concatenation of the UTF-8
      forms: every character is encoded on its own, in place. */
  lemma {:induction false} EncodeConcat(a: string, b: string)
    ensures Encode(a + b) == Encode(a) + Encode(b)
  {
    if a != [] {
      assert (a + b)[0] == a[0] && (a + b)[1..] == a[1..] + b;
      EncodeConcat(a[1..], b);
    } else {
      assert a + b == b;
    }
  }

  /** The bytes allowed second after the lead byte `b0` of a three- or
      four-byte sequence (this excludes overlong forms, surrogates and values
      beyond U+10FFFF). */
  predicate SecondOk(b0: byte, b1: byte) {
    if b0 == 0xE0 then 0xA0 <= b1 <= 0xBF
    else if b0 == 0xED then 0x80 <= b1 <= 0x9F
    else if b0 == 0xF0 then 0x90 <= b1 <= 0xBF
    else if b0 == 0xF4 then 0x80 <= b1 <= 0x8F
    else IsContinuation(b1)
  }

  /** The length of the well-formed sequence for one scalar value at the head
      of `b`, or 0 when `b` does not start with one. */
  function HeadWidth(b: seq<byte>): (n: nat)
    ensures n <= |b| && n <= 4
  {
    if b == [] then 0
    else if b[0] < 0x80 then 1
    else if 0xC2 <= b[0] <= 0xDF then
      if |b| >= 2 && IsContinuation(b[1]) then 2 else 0
    else if 0xE0 <= b[0] <= 0xEF then
      if |b| >= 3 && SecondOk(b[0], b[1]) && IsContinuation(b[2]) then 3 else 0
    else if 0xF0 <= b[0] <= 0xF4 then
      if |b| >= 4 && SecondOk(b[0], b[1]) && IsContinuation(b[2]) && IsContinuation(b[3]) then 4 else 0
    else 0
  }

  /** Euclidean division by `d` recovers the quotient and remainder it was
      built from. */
  lemma DivMod(q: int, r: int, d: int)
    requires d > 0 && 0 <= r < d
    ensures (q * d + r) / d == q && (q * d + r) % d == r
  {
    var n := q * d + r;
    var k := q - n / d;
    assert d * k == n % d - r;
  }

  /** The scalar value of a well-formed two-byte sequence. */
  function Scalar2(b0: byte, b1: byte): (n: int)
    requires 0xC2 <= b0 <= 0xDF && IsContinuation(b1)
    ensures 0x80 <= n < 0x800
    ensures n / 0x40 == b0 - 0xC0 && n % 0x40 == b1 - 0x80
  {
    DivMod(b0 - 0xC0, b1 - 0x80, 0x40);
    (b0 - 0xC0) * 0x40 + (b1 - 0x80)
  }

  /** The scalar value of a well-formed three-byte sequence. */
  function Scalar3(b0: byte, b1: byte, b2: byte): (n: int)
    requires 0xE0 <= b0 <= 0xEF && SecondOk(b0, b1) && IsContinuation(b2)
    ensures 0x800 <= n < 0xD800 || 0xE000 <= n < 0x1_0000
    ensures n / 0x1000 == b0 - 0xE0 && (n / 0x40) % 0x40 == b1 - 0x80 && n % 0x40 == b2 - 0x80
  {
    var a, x1, x2 := b0 - 0xE0, b1 - 0x80, b2 - 0x80;
    DivMod(a, x1 * 0x40 + x2, 0x1000);
    DivMod(a * 0x40 + x1, x2, 0x40);
    DivMod(a, x1, 0x40);
    a * 0x1000 + x1 * 0x40 + x2
  }

  /** The scalar value of a well-formed four-byte sequence. */
  function Scalar4(b0: byte, b1: byte, b2: byte, b3: byte): (n: int)
    requires 0xF0 <= b0 <= 0xF4 && SecondOk(b0, b1) && IsContinuation(b2) && IsContinuation(b3)
    ensures 0x1_0000 <= n < 0x11_0000
    ensures n / 0x4_0000 == b0 - 0xF0 && (n / 0x1000) % 0x40 == b1 - 0x80
    ensures (n / 0x40) % 0x40 == b2 - 0x80 && n % 0x40 == b3 - 0x80
  {
    var a, x1, x2, x3 := b0 - 0xF0, b1 - 0x80, b2 - 0x80, b3 - 0x80;
    DivMod(a, x1 * 0x1000 + x2 * 0x40 + x3, 0x4_0000);
    DivMod(a * 0x40 + x1, x2 * 0x40 + x3, 0x1000);
    DivMod(a, x1, 0x40);
    DivMod(a * 0x1000 + x1 * 0x40 + x2, x3, 0x40);
    DivMod(a * 0x40 + x1, x2, 0x40);
    a * 0x4_0000 + x1 * 0x1000 + x2 * 0x40 + x3
  }

  /** The scalar value the well-formed head of `b` stands for. */
  function DecodeHead(b: seq<byte>): (c: char)
    requires HeadWidth(b) > 0
    ensures EncodeChar(c) == b[..HeadWidth(b)]
  {
    var w := HeadWidth(b);
    if w == 1 then
      b[0] as char
    else if w == 2 then
      Scalar2(b[0], b[1]) as char
    else if w == 3 then
      Scalar3(b[0], b[1], b[2]) as char
    else
      Scalar4(b[0], b[1], b[2], b[3]) as char
  }

  /** The string whose UTF-8 form is `b` (`String::from_utf8`), or None when
      `b` is not well-formed UTF-8. */
  function Decode(b: seq<byte>): (r: Option<string>)
    ensures r.Some? ==> Encode(r.value) == b
    decreases |b|
  {
    if b == [] then Some([])
    else
      var w := HeadWidth(b);
      if w == 0 then None
      else
        match Decode(b[w..])
        case None => None
        case Some(rest) =>
          DecodeStep(b, rest);
          Some([DecodeHead(b)] + rest)
  }

  /** One step of decoding: the head's scalar value followed by a decoding of
      the rest encodes back to the whole. */
  lemma DecodeStep(b: seq<byte>, rest: string)
    requires HeadWidth(b) > 0 && Encode(rest) == b[HeadWidth(b)..]
    ensures Encode([DecodeHead(b)] + rest) == b
  {
    var c := DecodeHead(b);
    assert ([c] + rest)[1..] == rest;
    assert b[..HeadWidth(b)] + b[HeadWidth(b)..] == b;
  }

  /** The bytes of a two-byte form read back as its scalar value. */
  lemma Head2(n: int)
    requires 0x80 <= n < 0x800
    ensures 0xC2 <= 0xC0 + n / 0x40 <= 0xDF
    ensures Scalar2(0xC0 + n / 0x40, 0x80 + n % 0x40) == n
  {
    DivMod(n / 0x40, n % 0x40, 0x40);
  }

  /** The bytes of a three-byte form read back as its scalar value. */
  lemma Head3(n: int)
    requires 0x800 <= n < 0xD800 || 0xE000 <= n < 0x1_0000
    ensures 0xE0 <= 0xE0 + n / 0x1000 <= 0xEF
    ensures SecondOk(0xE0 + n / 0x1000, 0x80 + (n / 0x40) % 0x40)
    ensures Scalar3(0xE0 + n / 0x1000, 0x80 + (n / 0x40) % 0x40, 0x80 + n % 0x40) == n
  {
    var a, m := n / 0x1000, n % 0x1000;
    var x1, x2 := m / 0x40, m % 0x40;
    DivMod(a * 0x40 + x1, x2, 0x40);
    assert n == (a * 0x40 + x1) * 0x40 + x2;
    DivMod(a, x1, 0x40);
  }

  /** The bytes of a four-byte form read back as its scalar value. */
  lemma Head4(n: int)
    requires 0x1_0000 <= n < 0x11_0000
    ensures 0xF0 <= 0xF0 + n / 0x4_0000 <= 0xF4
    ensures SecondOk(0xF0 + n / 0x4_0000, 0x80 + (n / 0x1000) % 0x40)
    ensures Scalar4(0xF0 + n / 0x4_0000, 0x80 + (n / 0x1000) % 0x40, 0x80 + (n / 0x40) % 0x40, 0x80 + n % 0x40) == n
  {
    var a, m := n / 0x4_0000, n % 0x4_0000;
    var x1, m2 := m / 0x1000, m % 0x1000;
    var x2, x3 := m2 / 0x40, m2 % 0x40;
    assert n == a * 0x4_0000 + x1 * 0x1000 + x2 * 0x40 + x3;
    DivMod(a * 0x40 + x1, x2 * 0x40 + x3, 0x1000);
    DivMod(a, x1, 0x40);
    DivMod(a * 0x1000 + x1 * 0x40 + x2, x3, 0x40);
    DivMod(a * 0x40 + x1, x2, 0x40);
  }

  /** The head of the UTF-8 form of `c` followed by anything is `c` itself. */
  lemma EncodeCharHead(c: char, tail: seq<byte>)
    ensures HeadWidth(EncodeChar(c) + tail) == |EncodeChar(c)|
    ensures DecodeHead(EncodeChar(c) + tail) == c
  {
    var n := c as int;
    if n < 0x80 {
    } else if n < 0x800 {
      HeadOf2(c, tail);
    } else if n < 0x1_0000 {
      HeadOf3(c, tail);
    } else {
      HeadOf4(c, tail);
    }
  }

  lemma HeadOf2(c: char, tail: seq<byte>)
    requires 0x80 <= c as int < 0x800
    ensures HeadWidth(EncodeChar(c) + tail) == 2
    ensures DecodeHead(EncodeChar(c) + tail) == c
  {
    var n := c as int;
    Head2(n);
    var b := EncodeChar(c) + tail;
    assert b[0] == 0xC0 + n / 0x40 && b[1] == 0x80 + n % 0x40;
  }

  lemma HeadOf3(c: char, tail: seq<byte>)
    requires 0x800 <= c as int < 0x1_0000
    ensures HeadWidth(EncodeChar(c) + tail) == 3
    ensures DecodeHead(EncodeChar(c) + tail) == c
  {
    var n := c as int;
    Head3(n);
    var b := EncodeChar(c) + tail;
    assert b[0] == 0xE0 + n / 0x1000 && b[1] == 0x80 + (n / 0x40) % 0x40 && b[2] == 0x80 + n % 0x40;
  }

  lemma HeadOf4(c: char, tail: seq<byte>)
    requires 0x1_0000 <= c as int
    ensures HeadWidth(EncodeChar(c) + tail) == 4
    ensures DecodeHead(EncodeChar(c) + tail) == c
  {
    var n := c as int;
    Head4(n);
    var b := EncodeChar(c) + tail;
    assert b[0] == 0xF0 + n / 0x4_0000 && b[1] == 0x80 + (n / 0x1000) % 0x40;
    assert b[2] == 0x80 + (n / 0x40) % 0x40 && b[3] == 0x80 + n % 0x40;
  }

  /** Decoding the UTF-8 form of a string gives that string back. */
  lemma {:induction false} DecodeEncode(s: string)
    ensures Decode(Encode(s)) == Some(s)
  {
    if s != [] {
      var head, tail := EncodeChar(s[0]), Encode(s[1..]);
      EncodeCharHead(s[0], tail);
      var b := head + tail;
      assert b == Encode(s);
      assert b[|head|..] == tail;
      DecodeEncode(s[1..]);
      assert Decode(b) == Some([s[0]] + s[1..]);
      assert [s[0]] + s[1..] == s;
    }
  }

  /** `String::from_utf8` succeeds exactly on the byte strings that are the
      UTF-8 form of some string, and then returns that string. */
  lemma DecodeSpec(b: seq<byte>, s: string)
    ensures Decode(b) == Some(s) <==> Encode(s) == b
  {
    if Encode(s) == b {
      DecodeEncode(s);
    }
  }
}
