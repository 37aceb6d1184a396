/** UTF-8: well-formed byte strings, the replacement of what is not well-formed, and white space
    (section 3 of RFC 3629; the replacement follows the standard library's lossy conversion). */
module Utf8 {
  import opened Common

  newtype byte = x: int | 0 <= x < 256

  type Bytes = seq<byte>

  /** The bytes of an ASCII text. */
  function Ascii(s: string): (t: Bytes)
    requires forall c :: c in s ==> c as int < 128
    ensures |t| == |s| && forall i :: 0 <= i < |s| ==> t[i] as int == s[i] as int
  {
    seq(|s|, i requires 0 <= i < |s| => assert s[i] in s; s[i] as int as byte)
  }

  /** U+FFFD */
  const REPLACEMENT: Bytes := [0xEF, 0xBF, 0xBD]

  // ---- Characters ----

  predicate IsTail(b: byte) {
    0x80 <= b <= 0xBF
  }

  /** May `c` follow the lead byte `b` of a character of three or four bytes? */
  predicate SecondFits(b: byte, c: byte) {
    IsTail(c)
    && (b == 0xE0 ==> c >= 0xA0) && (b == 0xED ==> c <= 0x9F)
    && (b == 0xF0 ==> c >= 0x90) && (b == 0xF4 ==> c <= 0x8F)
  }

  /** The length of the character at the front; 0 when what is there is not well-formed. */
  function CharLength(s: Bytes): (n: nat)
    requires s != []
    ensures n <= |s| && n <= 4
  {
    var b := s[0];
    if b < 0x80 then 1
    else if 0xC2 <= b <= 0xDF then if |s| > 1 && IsTail(s[1]) then 2 else 0
    else if 0xE0 <= b <= 0xEF then if |s| > 2 && SecondFits(b, s[1]) && IsTail(s[2]) then 3 else 0
    else if 0xF0 <= b <= 0xF4 then if |s| > 3 && SecondFits(b, s[1]) && IsTail(s[2]) && IsTail(s[3]) then 4 else 0
    else 0
  }

  /** How many bytes one replacement stands for: as much as could have started a character. */
  function BadLength(s: Bytes): (n: nat)
    requires s != [] && CharLength(s) == 0
    ensures 1 <= n <= |s|
  {
    if 0xE0 <= s[0] <= 0xF4 && |s| > 1 && SecondFits(s[0], s[1]) then
      if s[0] >= 0xF0 && |s| > 2 && IsTail(s[2]) then 3 else 2
    else 1
  }

  // ---- The characters are the encoded scalar values ----

  predicate Scalar(c: nat) {
    c <= 0x10FFFF && !(0xD800 <= c <= 0xDFFF)
  }

  /** Section 3 of RFC 3629: six bits to every byte behind the first. */
  function Encoded(c: nat): Bytes
    requires Scalar(c)
  {
    if c < 0x80 then [c as byte]
    else if c < 0x800 then [(0xC0 + c / 64) as byte, (0x80 + c % 64) as byte]
    else if c < 0x1_0000 then
      [(0xE0 + c / 4096) as byte, (0x80 + c / 64 % 64) as byte, (0x80 + c % 64) as byte]
    else
      [(0xF0 + c / 262144) as byte, (0x80 + c / 4096 % 64) as byte, (0x80 + c / 64 % 64) as byte,
       (0x80 + c % 64) as byte]
  }

  lemma EncodedIsChar(c: nat)
    requires Scalar(c)
    ensures CharLength(Encoded(c)) == |Encoded(c)|
  {
  }

  /** The value of a character. */
  function Decoded(s: Bytes): (c: nat)
    requires s != [] && CharLength(s) > 0
  {
    match CharLength(s)
    case 1 => s[0] as nat
    case 2 => (s[0] as nat - 0xC0) * 64 + (s[1] as nat - 0x80)
    case 3 => (s[0] as nat - 0xE0) * 4096 + (s[1] as nat - 0x80) * 64 + (s[2] as nat - 0x80)
    case _ =>
      (s[0] as nat - 0xF0) * 262144 + (s[1] as nat - 0x80) * 4096 + (s[2] as nat - 0x80) * 64 + (s[3] as nat - 0x80)
  }

  lemma CharIsEncoded(s: Bytes)
    requires s != [] && CharLength(s) > 0
    ensures Scalar(Decoded(s)) && Encoded(Decoded(s)) == s[..CharLength(s)]
  {
    match CharLength(s)
    case 1 =>
    case 2 => TwoBytes(s[0], s[1]);
    case 3 => ThreeBytes(s[0], s[1], s[2]);
    case _ => FourBytes(s[0], s[1], s[2], s[3]);
  }

  lemma TwoBytes(a: byte, b: byte)
    requires 0xC2 <= a <= 0xDF && IsTail(b)
    ensures var c := (a as nat - 0xC0) * 64 + (b as nat - 0x80);
            Scalar(c) && Encoded(c) == [a, b]
  {
  }

  lemma ThreeBytes(a: byte, b: byte, c: byte)
    requires 0xE0 <= a <= 0xEF && SecondFits(a, b) && IsTail(c)
    ensures var v := (a as nat - 0xE0) * 4096 + (b as nat - 0x80) * 64 + (c as nat - 0x80);
            Scalar(v) && Encoded(v) == [a, b, c]
  {
    SixBits(a as nat - 0xE0, b as nat - 0x80, c as nat - 0x80);
  }

  lemma FourBytes(a: byte, b: byte, c: byte, d: byte)
    requires 0xF0 <= a <= 0xF4 && SecondFits(a, b) && IsTail(c) && IsTail(d)
    ensures var v := (a as nat - 0xF0) * 262144 + (b as nat - 0x80) * 4096 + (c as nat - 0x80) * 64 + (d as nat - 0x80);
            Scalar(v) && Encoded(v) == [a, b, c, d]
  {
    SixBits((a as nat - 0xF0) * 64 + (b as nat - 0x80), c as nat - 0x80, d as nat - 0x80);
    SixBits(a as nat - 0xF0, b as nat - 0x80, (c as nat - 0x80));
  }

  lemma SixBits(a: nat, b: nat, c: nat)
    requires b < 64 && c < 64
    ensures var v := a * 4096 + b * 64 + c;
            v / 4096 == a && v / 64 == a * 64 + b && v / 64 % 64 == b && v % 64 == c
  {
  }

  /** What is at the front is a character exactly when it starts with an encoded scalar value. */
  lemma CharMeaning(s: Bytes)
    requires s != []
    ensures CharLength(s) > 0 <==> exists c :: Scalar(c) && Encoded(c) <= s
    ensures forall c :: Scalar(c) && Encoded(c) <= s ==> CharLength(s) == |Encoded(c)|
  {
    if CharLength(s) > 0 {
      CharIsEncoded(s);
    }
    forall c | Scalar(c) && Encoded(c) <= s
      ensures CharLength(s) == |Encoded(c)|
    {
      EncodedIsChar(c);
      CharInFront(Encoded(c), s[|Encoded(c)|..]);
      assert s == Encoded(c) + s[|Encoded(c)|..];
    }
  }

  /** Some character starts with `t`, and goes on. */
  ghost predicate Begins(t: Bytes) {
    exists c :: Scalar(c) && t < Encoded(c)
  }

  lemma CharBegins(t: Bytes, x: Bytes)
    requires t < x && CharLength(x) == |x|
    ensures Begins(t)
  {
    CharIsEncoded(x);
    assert x[..|x|] == x;
  }

  /** One replacement stands for the longest beginning of a character, and for one byte where no
      character begins. */
  lemma BadMeaning(s: Bytes)
    requires s != [] && CharLength(s) == 0
    ensures var n := BadLength(s);
            && (n == 1 || Begins(s[..n]))
            && (n < |s| ==> forall c :: Scalar(c) ==> !(s[..n + 1] <= Encoded(c)))
  {
    var n := BadLength(s);
    if n == 2 {
      var x := s[..2] + if s[0] < 0xF0 then [0x80] else [0x80, 0x80];
      CharBegins(s[..2], x);
    } else if n == 3 {
      CharBegins(s[..3], s[..3] + [0x80]);
    }
    if n < |s| {
      forall c | Scalar(c)
        ensures !(s[..n + 1] <= Encoded(c))
      {
        EncodedIsChar(c);
        LongerBadness(s, Encoded(c));
      }
    }
  }

  lemma LongerBadness(s: Bytes, e: Bytes)
    requires s != [] && CharLength(s) == 0 && e != [] && CharLength(e) == |e| && BadLength(s) < |s|
    ensures !(s[..BadLength(s) + 1] <= e)
  {
    var t := s[..BadLength(s) + 1];
    assert forall i :: 0 <= i < |t| ==> t[i] == s[i];
  }

  function Lossy(s: Bytes): Bytes {
    if s == [] then []
    else
      var n := CharLength(s);
      if n > 0 then s[..n] + Lossy(s[n..]) else REPLACEMENT + Lossy(s[BadLength(s)..])
  }

  /** Characters stay, and what is no character is replaced by U+FFFD. */
  lemma LossyMeaning(c: nat, s: Bytes)
    requires Scalar(c)
    ensures Lossy(Encoded(c) + s) == Encoded(c) + Lossy(s)
    ensures s != [] && CharLength(s) == 0 ==> Lossy(s) == Encoded(0xFFFD) + Lossy(s[BadLength(s)..])
  {
    EncodedIsChar(c);
    CharInFront(Encoded(c), s);
    assert (Encoded(c) + s)[..|Encoded(c)|] == Encoded(c);
  }

  predicate WellFormed(s: Bytes) {
    s == [] || (CharLength(s) > 0 && WellFormed(s[CharLength(s)..]))
  }

  lemma CharInFront(c: Bytes, rest: Bytes)
    requires c != [] && CharLength(c) == |c|
    ensures CharLength(c + rest) == |c|
    ensures (c + rest)[|c|..] == rest
  {
  }

  lemma CharAlone(s: Bytes)
    requires s != [] && CharLength(s) > 0
    ensures CharLength(s[..CharLength(s)]) == CharLength(s)
  {
  }

  lemma {:induction false} LossyIsWellFormed(s: Bytes)
    ensures WellFormed(Lossy(s))
  {
    if s != [] {
      var n := CharLength(s);
      if n > 0 {
        LossyIsWellFormed(s[n..]);
        CharAlone(s);
        CharInFront(s[..n], Lossy(s[n..]));
      } else {
        LossyIsWellFormed(s[BadLength(s)..]);
        CharInFront(REPLACEMENT, Lossy(s[BadLength(s)..]));
      }
    }
  }

  lemma {:induction false} WellFormedIsKept(s: Bytes)
    requires WellFormed(s)
    ensures Lossy(s) == s
  {
    if s != [] {
      var n := CharLength(s);
      WellFormedIsKept(s[n..]);
      assert s[..n] + s[n..] == s;
    }
  }

  /** The conversion changes exactly the strings that are not well-formed. */
  lemma LossyKeepsExactly(s: Bytes)
    ensures Lossy(s) == s <==> WellFormed(s)
  {
    LossyIsWellFormed(s);
    if WellFormed(s) {
      WellFormedIsKept(s);
    }
  }

  predicate IsAscii(s: Bytes) {
    forall b :: b in s ==> b < 0x80
  }

  lemma {:induction false} AsciiInFront(a: Bytes, rest: Bytes)
    requires IsAscii(a)
    ensures WellFormed(a + rest) <==> WellFormed(rest)
  {
    if a == [] {
      assert a + rest == rest;
    } else {
      assert a[0] in a && forall b :: b in a[1..] ==> b in a;
      AsciiInFront(a[1..], rest);
      ConcatTail(a, rest);
    }
  }

  lemma AsciiIsWellFormed(a: Bytes)
    requires IsAscii(a)
    ensures WellFormed(a)
  {
    AsciiInFront(a, []);
    assert a + [] == a;
  }

  // ---- White space ----

  /** The length of the white-space character at the front; 0 when there is none. */
  function SpaceLength(s: Bytes): (n: nat)
    ensures n <= |s|
  {
    if |s| > 0 && (s[0] == 0x20 || 0x09 <= s[0] <= 0x0D) then 1
    else if |s| > 1 && s[0] == 0xC2 && (s[1] == 0x85 || s[1] == 0xA0) then 2
    else if |s| > 2 && IsWideSpace(s[0], s[1], s[2]) then 3
    else 0
  }

  predicate IsWideSpace(a: byte, b: byte, c: byte) {
    || (a == 0xE1 && b == 0x9A && c == 0x80)
    || (a == 0xE2 && b == 0x80 && (0x80 <= c <= 0x8A || c == 0xA8 || c == 0xA9 || c == 0xAF))
    || (a == 0xE2 && b == 0x81 && c == 0x9F)
    || (a == 0xE3 && b == 0x80 && c == 0x80)
  }

  /** The code points with the property White_Space. */
  predicate White(c: nat) {
    || 0x09 <= c <= 0x0D || c == 0x20 || c == 0x85 || c == 0xA0 || c == 0x1680 || 0x2000 <= c <= 0x200A
    || c == 0x2028 || c == 0x2029 || c == 0x202F || c == 0x205F || c == 0x3000
  }

  ghost predicate StartsWhite(s: Bytes, c: nat) {
    White(c) && Encoded(c) <= s
  }

  lemma WhiteStarts(s: Bytes, c: nat)
    requires StartsWhite(s, c)
    ensures SpaceLength(s) == |Encoded(c)|
  {
    var e := Encoded(c);
    assert e[0] == s[0] && (|e| > 1 ==> e[1] == s[1]) && (|e| > 2 ==> e[2] == s[2]);
  }

  /** What is at the front is white space exactly when it starts with an encoded white-space character. */
  lemma SpaceMeaning(s: Bytes)
    ensures SpaceLength(s) > 0 <==> exists c :: StartsWhite(s, c)
    ensures forall c :: StartsWhite(s, c) ==> SpaceLength(s) == |Encoded(c)|
  {
    forall c | StartsWhite(s, c)
      ensures SpaceLength(s) == |Encoded(c)|
    {
      WhiteStarts(s, c);
    }
    if SpaceLength(s) > 0 {
      SpaceIsWhite(s);
      CharIsEncoded(s);
      assert StartsWhite(s, Decoded(s));
    }
  }

  lemma SpaceIsWhite(s: Bytes)
    requires SpaceLength(s) > 0
    ensures CharLength(s) == SpaceLength(s) && White(Decoded(s))
  {
  }

  /** The same at the end. */
  function SpaceLengthAtEnd(s: Bytes): (n: nat)
    ensures n <= |s|
  {
    var k := |s|;
    if k > 0 && SpaceLength(s[k - 1..]) == 1 then 1
    else if k > 1 && SpaceLength(s[k - 2..]) == 2 then 2
    else if k > 2 && SpaceLength(s[k - 3..]) == 3 then 3
    else 0
  }

  ghost predicate EndsWhite(s: Bytes, c: nat) {
    White(c) && |Encoded(c)| <= |s| && s[|s| - |Encoded(c)|..] == Encoded(c)
  }

  lemma SpaceAtEndMeaning(s: Bytes)
    ensures SpaceLengthAtEnd(s) > 0 <==> exists c :: EndsWhite(s, c)
    ensures forall c :: EndsWhite(s, c) ==> SpaceLengthAtEnd(s) == |Encoded(c)|
  {
    forall c | EndsWhite(s, c)
      ensures SpaceLengthAtEnd(s) == |Encoded(c)|
    {
      WhiteAtEnd(s, c);
    }
    if SpaceLengthAtEnd(s) > 0 {
      var c := LastSpace(s);
    }
  }

  lemma LastSpace(s: Bytes) returns (c: nat)
    requires SpaceLengthAtEnd(s) > 0
    ensures EndsWhite(s, c)
  {
    var t := s[|s| - SpaceLengthAtEnd(s)..];
    SpaceIsWhite(t);
    CharIsEncoded(t);
    c := Decoded(t);
    assert t[..|t|] == t;
  }

  lemma WhiteAtEnd(s: Bytes, c: nat)
    requires EndsWhite(s, c)
    ensures SpaceLengthAtEnd(s) == |Encoded(c)|
  {
    var k, e := |s|, Encoded(c);
    WhiteStarts(e, c);
    EndBytes(c);
    assert s[k - 1] == s[k - |e|..][|e| - 1];
    if |e| > 1 {
      assert s[k - 2] == s[k - |e|..][|e| - 2];
    }
  }

  /** No white-space character ends in a shorter one. */
  lemma EndBytes(c: nat)
    requires White(c)
    ensures var e := Encoded(c);
            (|e| > 1 ==> e[|e| - 1] >= 0x80) && (|e| > 2 ==> e[|e| - 2] != 0xC2)
  {
  }

  function StripStart(s: Bytes): Bytes {
    if SpaceLength(s) > 0 then StripStart(s[SpaceLength(s)..]) else s
  }

  function StripEnd(s: Bytes): Bytes {
    if SpaceLengthAtEnd(s) > 0 then StripEnd(s[..|s| - SpaceLengthAtEnd(s)]) else s
  }

  function Strip(s: Bytes): Bytes {
    StripEnd(StripStart(s))
  }

  predicate IsBlank(b: byte) {
    b == 0x20 || 0x09 <= b <= 0x0D
  }

  lemma {:induction false} StripEndBlank(x: Bytes, c: byte)
    requires IsBlank(c)
    ensures StripEnd(x + [c]) == StripEnd(x)
  {
    var s := x + [c];
    assert s[|s| - 1..] == [c];
    assert s[..|s| - 1] == x;
  }

  lemma {:induction false} StripStartBlank(c: byte, x: Bytes)
    requires IsBlank(c)
    ensures StripStart([c] + x) == StripStart(x)
  {
    assert ([c] + x)[1..] == x;
  }

  lemma LastOfSpace(s: Bytes)
    requires s != [] && s[|s| - 1] < 0x80 && !IsBlank(s[|s| - 1])
    ensures SpaceLength(s) != |s|
  {
  }

  lemma NoSpaceAtEnd(s: Bytes)
    requires s != [] && s[|s| - 1] < 0x80 && !IsBlank(s[|s| - 1])
    ensures SpaceLengthAtEnd(s) == 0
  {
    var k := |s|;
    LastOfSpace(s[k - 1..]);
    if k > 1 { LastOfSpace(s[k - 2..]); }
    if k > 2 { LastOfSpace(s[k - 3..]); }
  }

  /** An ASCII character that is no blank stops the stripping. */
  lemma {:induction false} StripStops(s: Bytes)
    requires s != []
    ensures s[0] < 0x80 && !IsBlank(s[0]) ==> StripStart(s) == s
    ensures s[|s| - 1] < 0x80 && !IsBlank(s[|s| - 1]) ==> StripEnd(s) == s
  {
    if s[|s| - 1] < 0x80 && !IsBlank(s[|s| - 1]) {
      NoSpaceAtEnd(s);
    }
  }
}
