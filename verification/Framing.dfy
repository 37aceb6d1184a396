/** Messages framed by a `Content-Length` header (Language Server Protocol, Base Protocol): header lines
    up to a blank one, then as many bytes as were announced. Reading what was written gives the bodies
    that were written, whatever follows them. */
module Framing {
  import opened Common
  import opened Utf8

  const LF: byte := 10
  const CR: byte := 13

  /** Lengths are machine words. */
  const LENGTH_LIMIT: nat := 0x1_0000_0000_0000_0000

  type Body = b: Bytes | |b| < LENGTH_LIMIT witness []

  /** "Content-Length:" */
  const HEADER: Bytes := [67, 111, 110, 116, 101, 110, 116, 45, 76, 101, 110, 103, 116, 104, 58]

  // ---- Decimal numbers ----

  function Digits(n: nat): Bytes {
    if n < 10 then [48 + n as byte] else Digits(n / 10) + [48 + (n % 10) as byte]
  }

  predicate IsDigit(b: byte) {
    48 <= b <= 57
  }

  /** The value of a string of digits; no value when another character is met. */
  function Decimal(s: Bytes): Option<nat> {
    if s == [] then Some(0)
    else
      var k := |s| - 1;
      match Decimal(s[..k])
      case None => None
      case Some(v) => if IsDigit(s[k]) then Some(10 * v + (s[k] as nat - 48)) else None
  }

  /** Parsing a machine word: digits, after an optional plus sign, below the limit. */
  function ParseLength(s: Bytes): Option<nat> {
    var d := if s != [] && s[0] == 43 then s[1..] else s;
    if d == [] then None
    else match Decimal(d)
      case None => None
      case Some(v) => if v < LENGTH_LIMIT then Some(v) else None
  }

  lemma {:induction false} DigitsParse(n: nat)
    ensures Decimal(Digits(n)) == Some(n)
    ensures Digits(n) != [] && forall b :: b in Digits(n) ==> IsDigit(b)
  {
    if n < 10 {
      assert Digits(n)[..0] == [];
    } else {
      DigitsParse(n / 10);
      var last := 48 + (n % 10) as byte;
      assert Digits(n)[..|Digits(n)| - 1] == Digits(n / 10);
    }
  }

  /** A length is a number below 2 to the 64, in digits, possibly with a plus sign in front. */
  lemma LengthMeaning(s: Bytes, n: nat)
    ensures ParseLength(s) == Some(n) <==>
              n < 18446744073709551616
              && exists d :: d != [] && (s == d || s == Ascii("+") + d) && Decimal(d) == Some(n)
  {
    var plus := Ascii("+");
    assert plus == [43];
    if ParseLength(s) == Some(n) {
      var d := if s != [] && s[0] == 43 then s[1..] else s;
      assert s == d || s == plus + d;
    }
    if d :| d != [] && (s == d || s == plus + d) && Decimal(d) == Some(n) {
      DecimalStarts(d);
      assert (plus + d)[1..] == d;
    }
  }

  lemma {:induction false} DecimalStarts(d: Bytes)
    requires d != [] && Decimal(d).Some?
    ensures IsDigit(d[0])
  {
    if |d| > 1 { DecimalStarts(d[..|d| - 1]); }
  }

  /** A last digit is worth one, and makes the ones before it worth ten times as much. */
  lemma DecimalMeaning(d: Bytes, k: nat)
    requires k < 10
    ensures Decimal(d + [Ascii("0123456789")[k]]) ==
            match Decimal(d) case None => None case Some(v) => Some(10 * v + k)
  {
    assert (d + [Ascii("0123456789")[k]])[..|d|] == d;
  }

  // ---- Lines ----

  /** The bytes up to and including the first line feed, or all of them. */
  function Line(s: Bytes): (l: Bytes)
    ensures l <= s && (s != [] ==> l != [])
  {
    if s == [] then [] else if s[0] == LF then [LF] else [s[0]] + Line(s[1..])
  }

  // ---- Reading ----

  /** What a line of the header says: nothing, as the blank line; the length, if it parses; something
      else; or bytes that are not well-formed, which end the stream. */
  datatype LineKind = Blank | Length(n: Option<nat>) | Other | Malformed

  function Kind(l: Bytes): LineKind {
    if !WellFormed(l) then Malformed
    else
      var t := Strip(l);
      if t == [] then Blank
      else if HEADER <= t then Length(ParseLength(Strip(t[|HEADER|..])))
      else Other
  }

  /** The header section: the announced length and what follows the blank line; `None` at the end
      of the stream. `announced` is the length seen so far, `kind` classifies the lines. */
  function ReadHeader(s: Bytes, announced: Option<nat>, kind: Bytes -> LineKind): Option<(nat, Bytes)>
    decreases |s|
  {
    if s == [] then None
    else
      var l := Line(s);
      var rest := s[|l|..];
      match kind(l)
      case Malformed => None
      case Blank => if announced.Some? then Some((announced.value, rest)) else ReadHeader(rest, announced, kind)
      case Length(n) => ReadHeader(rest, n, kind)
      case Other => ReadHeader(rest, announced, kind)
  }

  lemma {:induction false} ReadHeaderShrinks(s: Bytes, announced: Option<nat>, kind: Bytes -> LineKind)
    ensures ReadHeader(s, announced, kind).Some? ==> |ReadHeader(s, announced, kind).value.1| < |s|
    decreases |s|
  {
    if s != [] {
      var l := Line(s);
      match kind(l) {
        case Length(n) => ReadHeaderShrinks(s[|l|..], n, kind);
        case _ => ReadHeaderShrinks(s[|l|..], announced, kind);
      }
    }
  }

  /** A body and what follows it; `None` where the header ends the stream or announces too much. */
  function NextMessage(s: Bytes, kind: Bytes -> LineKind): Option<(Bytes, Bytes)> {
    match ReadHeader(s, None, kind)
    case None => None
    case Some(h) => if h.0 > |h.1| then None else Some((h.1[..h.0], h.1[h.0..]))
  }

  function DecodeBy(s: Bytes, kind: Bytes -> LineKind): seq<Bytes>
    decreases |s|
  {
    match NextMessage(s, kind)
    case None => []
    case Some(m) =>
      ReadHeaderShrinks(s, None, kind);
      [m.0] + DecodeBy(m.1, kind)
  }

  /** The bodies in a stream of bytes. */
  function Decode(s: Bytes): seq<Bytes> {
    DecodeBy(s, Kind)
  }

  lemma {:induction false} LineEndsAt(s: Bytes, k: nat)
    requires k < |s| && s[k] == LF && forall j :: 0 <= j < k ==> s[j] != LF
    ensures Line(s) == s[..k + 1]
  {
    if k > 0 {
      LineEndsAt(s[1..], k - 1);
      assert s[..k + 1] == [s[0]] + s[1..][..k];
    }
  }

  lemma {:induction false} LineIsAll(s: Bytes)
    requires forall j :: 0 <= j < |s| ==> s[j] != LF
    ensures Line(s) == s
  {
    if s != [] {
      LineIsAll(s[1..]);
      assert s == [s[0]] + s[1..];
    }
  }

  /** One line of input, from position `pos`. */
  method ReadLine(s: Bytes, pos: nat) returns (next: nat)
    requires pos <= |s|
    ensures pos <= next <= |s| && s[pos..next] == Line(s[pos..])
  {
    next := pos;
    while next < |s| && s[next] != LF
      invariant pos <= next <= |s|
      invariant forall j :: pos <= j < next ==> s[j] != LF
    {
      next := next + 1;
    }
    if next < |s| {
      LineEndsAt(s[pos..], next - pos);
      next := next + 1;
      assert s[pos..][..next - pos] == s[pos..next];
    } else {
      LineIsAll(s[pos..]);
      assert s[pos..next] == s[pos..];
    }
  }

  /** Header lines up to the blank line; `None` at the end of the stream. */
  method ReadHeaders(s: Bytes, start: nat, kind: Bytes -> LineKind) returns (r: Option<(nat, nat)>)
    requires start <= |s|
    ensures r.None? ==> ReadHeader(s[start..], None, kind) == None
    ensures r.Some? ==> start < r.value.1 <= |s|
    ensures r.Some? ==> ReadHeader(s[start..], None, kind) == Some((r.value.0, s[r.value.1..]))
  {
    var pos := start;
    var announced: Option<nat> := None;
    while true
      invariant start <= pos <= |s|
      invariant ReadHeader(s[start..], None, kind) == ReadHeader(s[pos..], announced, kind)
      decreases |s| - pos
    {
      var next := ReadLine(s, pos);
      var line := s[pos..next];
      assert s[pos..][|line|..] == s[next..];
      if next == pos {
        return None;
      }
      pos := next;
      match kind(line) {
        case Malformed => return None;
        case Blank =>
          if announced.Some? {
            return Some((announced.value, pos));
          }
        case Length(n) => announced := n;
        case Other =>
      }
    }
  }

  /** A header, then exactly as many bytes as it announced. */
  method ReadMessage(s: Bytes, pos: nat, kind: Bytes -> LineKind) returns (r: Option<(Bytes, nat)>)
    requires pos <= |s|
    ensures r.None? ==> NextMessage(s[pos..], kind) == None
    ensures r.Some? ==> pos < r.value.1 <= |s|
    ensures r.Some? ==> NextMessage(s[pos..], kind) == Some((r.value.0, s[r.value.1..]))
  {
    var h := ReadHeaders(s, pos, kind);
    if h.None? {
      return None;
    }
    var (n, next) := h.value;
    if n > |s| - next {
      return None;
    }
    Slices(s, next, n);
    r := Some((s[next..next + n], next + n));
  }

  lemma Slices(s: Bytes, next: nat, n: nat)
    requires next + n <= |s|
    ensures s[next..][..n] == s[next..next + n] && s[next..][n..] == s[next + n..]
  {
  }

  /** The reader, over and over until the stream ends. `deliver` tells the bodies that the consumer
      can parse. */
  method ReadFramedMessages(s: Bytes, deliver: Bytes -> bool) returns (bodies: seq<Bytes>)
    ensures bodies == Delivered(Decode(s), deliver)
  {
    bodies := [];
    var pos := 0;
    assert s[0..] == s;
    ghost var all := Decode(s);
    ghost var rest := all;
    while true
      invariant pos <= |s| && rest == DecodeBy(s[pos..], Kind)
      invariant bodies + Delivered(rest, deliver) == Delivered(all, deliver)
      decreases |s| - pos
    {
      var r := ReadMessage(s, pos, Kind);
      if r.None? {
        return;
      }
      var (body, next) := r.value;
      ghost var after := DecodeBy(s[next..], Kind);
      DeliveredStep(body, after, deliver);
      if deliver(body) {
        Regroup(bodies, [body], Delivered(after, deliver));
        bodies := bodies + [body];
      } else {
        assert [] + Delivered(after, deliver) == Delivered(after, deliver);
      }
      pos, rest := next, after;
    }
  }

  function Delivered(bodies: seq<Bytes>, deliver: Bytes -> bool): seq<Bytes> {
    if bodies == [] then []
    else (if deliver(bodies[0]) then [bodies[0]] else []) + Delivered(bodies[1..], deliver)
  }

  lemma {:induction false} DeliveredStep(b: Bytes, rest: seq<Bytes>, deliver: Bytes -> bool)
    ensures Delivered([b] + rest, deliver) == (if deliver(b) then [b] else []) + Delivered(rest, deliver)
  {
    assert ([b] + rest)[1..] == rest;
  }

  // ---- Writing ----

  /** One message on the wire. */
  function Frame(body: Body): Bytes {
    HEADER + [32] + Digits(|body|) + [CR, LF, CR, LF] + body
  }

  function Encode(bodies: seq<Body>): Bytes {
    if bodies == [] then [] else Frame(bodies[0]) + Encode(bodies[1..])
  }

  // ---- Reading what was written ----

  lemma LineOf(a: Bytes, rest: Bytes)
    requires LF !in a
    ensures Line(a + [LF] + rest) == a + [LF]
    ensures (a + [LF] + rest)[|a| + 1..] == rest
  {
    var x := a + [LF] + rest;
    assert forall j :: 0 <= j < |a| ==> x[j] == a[j] && a[j] in a;
    LineEndsAt(x, |a|);
    assert x[..|a| + 1] == a + [LF];
  }

  lemma StripHeaderLine(d: Bytes)
    requires d != [] && forall b :: b in d ==> IsDigit(b)
    ensures Strip(HEADER + [32] + d + [CR] + [LF]) == HEADER + [32] + d
    ensures Strip([32] + d) == d
  {
    var y := HEADER + [32] + d;
    var x := y + [CR] + [LF];
    assert x[0] == y[0] == 67;
    StripStops(x);
    StripEndBlank(y + [CR], LF);
    StripEndBlank(y, CR);
    assert d[|d| - 1] in d && d[0] in d;
    assert y[|y| - 1] == d[|d| - 1];
    StripStops(y);
    StripStartBlank(32, d);
    StripStops(d);
  }

  lemma ParseDigits(n: nat)
    requires n < LENGTH_LIMIT
    ensures ParseLength(Digits(n)) == Some(n)
  {
    DigitsParse(n);
    assert Digits(n)[0] in Digits(n);
  }

  /** An ASCII line is classified by what is left of it without white space. */
  lemma {:induction false} AsciiKind(a: Bytes)
    requires forall b :: b in a ==> b < 128
    ensures var t := Strip(a + [LF]);
            Kind(a + [LF]) ==
              if t == [] then Blank else if HEADER <= t then Length(ParseLength(Strip(t[|HEADER|..]))) else Other
  {
    assert IsAscii(a + [LF]);
    AsciiIsWellFormed(a + [LF]);
  }

  lemma {:induction false} LineReads(a: Bytes, rest: Bytes, announced: Option<nat>, kind: Bytes -> LineKind)
    requires LF !in a
    ensures kind(a + [LF]) == Blank && announced.Some? ==>
              ReadHeader(a + [LF] + rest, announced, kind) == Some((announced.value, rest))
    ensures kind(a + [LF]).Length? ==>
              ReadHeader(a + [LF] + rest, announced, kind) == ReadHeader(rest, kind(a + [LF]).n, kind)
  {
    LineOf(a, rest);
  }

  /** The line that announces a length, and the one that ends the header. */
  lemma {:induction false} HeaderLineKind(n: nat)
    requires n < LENGTH_LIMIT
    ensures LF !in HEADER + [32] + Digits(n) + [CR]
    ensures Kind(HEADER + [32] + Digits(n) + [CR] + [LF]) == Length(Some(n))
  {
    DigitsParse(n);
    ParseDigits(n);
    AnnouncementChars(Digits(n));
    AnnouncementKind(Digits(n));
  }

  lemma AnnouncementChars(d: Bytes)
    requires forall b :: b in d ==> IsDigit(b)
    ensures forall b :: b in HEADER + [32] + d + [CR] ==> b != LF && b < 128
  {
    forall b | b in HEADER + [32] + d + [CR]
      ensures b != LF && b < 128
    {
      assert b in HEADER || b == 32 || b in d || b == CR;
    }
  }

  lemma {:induction false} AnnouncementKind(d: Bytes)
    requires d != [] && forall b :: b in d ==> IsDigit(b)
    ensures Kind(HEADER + [32] + d + [CR] + [LF]) == Length(ParseLength(d))
  {
    AnnouncementChars(d);
    AsciiKind(HEADER + [32] + d + [CR]);
    StripHeaderLine(d);
    var t := HEADER + [32] + d;
    assert t[|HEADER|..] == [32] + d && HEADER <= t;
  }

  lemma {:induction false} BlankLineKind()
    ensures Kind([CR] + [LF]) == Blank
  {
    AsciiKind([CR]);
    StripStartBlank(CR, [LF]);
    StripStartBlank(LF, []);
    assert [LF] + [] == [LF];
    assert Strip([CR] + [LF]) == [];
  }

  lemma {:induction false} FrameReads(body: Body, rest: Bytes)
    ensures ReadHeader(Frame(body) + rest, None, Kind) == Some((|body|, body + rest))
  {
    var head := HEADER + [32] + Digits(|body|) + [CR];
    var after := [CR] + [LF] + (body + rest);
    HeaderLineKind(|body|);
    BlankLineKind();
    FrameLines(HEADER + [32] + Digits(|body|), body, rest);
    LineReads(head, after, None, Kind);
    LineReads([CR], body + rest, Some(|body|), Kind);
  }

  lemma FrameLines(head: Bytes, body: Bytes, rest: Bytes)
    ensures head + [CR, LF, CR, LF] + body + rest == head + [CR] + [LF] + ([CR] + [LF] + (body + rest))
  {
  }

  /** What goes over the wire, in characters. */
  lemma FrameText(body: Body)
    ensures Frame(body) == Ascii("Content-Length: ") + Digits(|body|) + Ascii("\r\n\r\n") + body
  {
    HeaderText();
    LineEnds();
  }

  lemma HeaderText()
    ensures Ascii("Content-Length: ") == HEADER + [32] && Ascii("Content-Length:") == HEADER
  {
  }

  lemma LineEnds()
    ensures Ascii("\r\n\r\n") == [CR, LF, CR, LF] && Ascii("\r\n") == [CR, LF]
  {
  }

  // ---- Other header lines ----

  /** A line that says nothing about the length. */
  ghost predicate Skipped(l: Bytes) {
    LF !in l && WellFormed(l + [LF]) && !(Ascii("Content-Length:") <= Strip(l + [LF]))
  }

  function Lines(ls: seq<Bytes>): Bytes {
    if ls == [] then [] else ls[0] + [LF] + Lines(ls[1..])
  }

  /** Such lines are passed over: other headers at any place, blank lines before the length is known. */
  lemma {:induction false} SkipLines(ls: seq<Bytes>, rest: Bytes, announced: Option<nat>)
    requires forall l :: l in ls ==> Skipped(l) && (announced.Some? ==> Strip(l + [LF]) != [])
    ensures ReadHeader(Lines(ls) + rest, announced, Kind) == ReadHeader(rest, announced, Kind)
    decreases |ls|
  {
    if ls == [] {
      assert Lines(ls) + rest == rest;
    } else {
      assert ls[0] in ls;
      HeaderText();
      Regroup(ls[0] + [LF], Lines(ls[1..]), rest);
      LineOf(ls[0], Lines(ls[1..]) + rest);
      SkipLines(ls[1..], rest, announced);
    }
  }

  /** A message is read whatever other header lines come with it, before or after its length. */
  lemma MessageReads(before: seq<Bytes>, after: seq<Bytes>, body: Body, rest: Bytes)
    requires forall l :: l in before ==> Skipped(l)
    requires forall l :: l in after ==> Skipped(l) && Strip(l + [LF]) != []
    ensures Decode(Lines(before) + Ascii("Content-Length: ") + Digits(|body|) + Ascii("\r\n")
                   + Lines(after) + Ascii("\r\n") + body + rest) == [body] + Decode(rest)
  {
    HeaderText();
    LineEnds();
    MessageParts(Lines(before), HEADER + [32], Digits(|body|), Lines(after), body, rest);
    HeaderReads(before, after, |body|, body + rest);
    assert (body + rest)[..|body|] == body && (body + rest)[|body|..] == rest;
  }

  lemma HeaderReads(before: seq<Bytes>, after: seq<Bytes>, n: nat, rest: Bytes)
    requires n < LENGTH_LIMIT && forall l :: l in before ==> Skipped(l)
    requires forall l :: l in after ==> Skipped(l) && Strip(l + [LF]) != []
    ensures ReadHeader(Lines(before) + ((HEADER + [32] + Digits(n) + [CR]) + [LF]
                                        + (Lines(after) + ([CR] + [LF] + rest))), None, Kind) == Some((n, rest))
  {
    var head := HEADER + [32] + Digits(n) + [CR];
    var blank := [CR] + [LF] + rest;
    SkipLines(before, head + [LF] + (Lines(after) + blank), None);
    HeaderLineKind(n);
    LineReads(head, Lines(after) + blank, None, Kind);
    SkipLines(after, blank, Some(n));
    BlankLineKind();
    LineReads([CR], rest, Some(n), Kind);
  }

  lemma MessageParts(b: Bytes, h: Bytes, d: Bytes, a: Bytes, body: Bytes, rest: Bytes)
    ensures b + h + d + [CR, LF] + a + [CR, LF] + body + rest
         == b + ((h + d + [CR]) + [LF] + (a + ([CR] + [LF] + (body + rest))))
  {
  }

  // ---- What ends the stream ----

  /** A header line that is not well-formed ends the stream. */
  lemma MalformedEnds(l: Bytes, rest: Bytes)
    requires LF !in l && !WellFormed(l + [LF])
    ensures Decode(l + [LF] + rest) == []
  {
    LineOf(l, rest);
  }

  /** So does a message with fewer bytes than it announced. */
  lemma ShortEnds(n: nat, rest: Bytes)
    requires |rest| < n < LENGTH_LIMIT
    ensures Decode(HEADER + [32] + Digits(n) + [CR] + [LF] + ([CR] + [LF] + rest)) == []
  {
    HeaderLineKind(n);
    BlankLineKind();
    LineReads(HEADER + [32] + Digits(n) + [CR], [CR] + [LF] + rest, None, Kind);
    LineReads([CR], rest, Some(n), Kind);
  }

  /** A length that does not parse undoes one announced before. */
  lemma BadLengthForgets(l: Bytes, rest: Bytes, announced: Option<nat>)
    requires LF !in l && WellFormed(l + [LF]) && HEADER <= Strip(l + [LF])
    requires ParseLength(Strip(Strip(l + [LF])[|HEADER|..])).None?
    ensures ReadHeader(l + [LF] + rest, announced, Kind) == ReadHeader(rest, None, Kind)
  {
    LineReads(l, rest, announced, Kind);
  }

  lemma FirstAndRest<T>(s: seq<T>, tail: seq<T>)
    requires s != []
    ensures [s[0]] + (s[1..] + tail) == s + tail
  {
  }

  lemma {:induction false} EncodeFirst(bodies: seq<Body>, rest: Bytes)
    requires bodies != []
    ensures Encode(bodies) + rest == Frame(bodies[0]) + (Encode(bodies[1..]) + rest)
  {
    Regroup(Frame(bodies[0]), Encode(bodies[1..]), rest);
  }

  /** Reading the concatenation of framed bodies gives those bodies, and then whatever the bytes
      after them hold. */
  lemma {:induction false} DecodeEncode(bodies: seq<Body>, rest: Bytes)
    ensures Decode(Encode(bodies) + rest) == bodies + Decode(rest)
    decreases |bodies|
  {
    if bodies == [] {
      assert Encode(bodies) + rest == rest;
      assert bodies + Decode(rest) == Decode(rest);
    } else {
      var more := Encode(bodies[1..]) + rest;
      EncodeFirst(bodies, rest);
      DecodeFrame(bodies[0], more);
      DecodeEncode(bodies[1..], rest);
      FirstAndRest(bodies, Decode(rest));
    }
  }

  lemma {:induction false} DecodeFrame(b: Body, more: Bytes)
    ensures Decode(Frame(b) + more) == [b] + Decode(more)
  {
    FrameReads(b, more);
    assert (b + more)[..|b|] == b && (b + more)[|b|..] == more;
  }

  lemma {:induction false} RoundTrip(bodies: seq<Body>)
    ensures Decode(Encode(bodies)) == bodies
  {
    DecodeEncode(bodies, []);
    assert Encode(bodies) + [] == Encode(bodies);
    assert NextMessage([], Kind) == None;
    assert bodies + [] == bodies;
  }
}
