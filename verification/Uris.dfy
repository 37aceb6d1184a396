/** `file://` URIs: percent encoding of the bytes of a path and back (sections 2.1 and 2.3 of
    RFC 3986, section 2 of RFC 8089). */
module Uris {
  import opened Common
  import opened Utf8
  import opened Framing

  const PERCENT: byte := 37
  const SLASH: byte := 47
  const COLON: byte := 58
  const BACKSLASH: byte := 92

  /** "file://" */
  const SCHEME: Bytes := [102, 105, 108, 101, 58, 47, 47]

  /** `\\?\` and `\\?\UNC\` */
  const VERBATIM: Bytes := [92, 92, 63, 92]
  const VERBATIM_UNC: Bytes := [92, 92, 63, 92, 85, 78, 67, 92]

  // ---- Percent encoding ----

  predicate IsAlpha(b: byte) {
    65 <= b <= 90 || 97 <= b <= 122
  }

  /** Letters, digits, "-", ".", "_", "~", and the path's own "/" and ":". */
  predicate Unescaped(b: byte) {
    IsAlpha(b) || IsDigit(b) || b == 45 || b == 46 || b == 95 || b == 126 || b == SLASH || b == COLON
  }

  function HexDigit(n: nat): byte
    requires n < 16
  {
    if n < 10 then 48 + n as byte else 55 + n as byte
  }

  /** Either case. */
  function FromHex(b: byte): Option<nat> {
    if IsDigit(b) then Some(b as nat - 48)
    else if 65 <= b <= 70 then Some(b as nat - 55)
    else if 97 <= b <= 102 then Some(b as nat - 87)
    else None
  }

  function Escape(b: byte): Bytes {
    if Unescaped(b) then [b] else [PERCENT, HexDigit(b as nat / 16), HexDigit(b as nat % 16)]
  }

  function PercentEncode(s: Bytes): Bytes {
    if s == [] then [] else Escape(s[0]) + PercentEncode(s[1..])
  }

  /** A percent sign with two hexadecimal digits behind it. */
  predicate IsEscape(s: Bytes) {
    |s| > 2 && s[0] == PERCENT && FromHex(s[1]).Some? && FromHex(s[2]).Some?
  }

  function Escaped(s: Bytes): byte
    requires IsEscape(s)
  {
    (FromHex(s[1]).value * 16 + FromHex(s[2]).value) as byte
  }

  function PercentDecoded(s: Bytes): Bytes {
    if s == [] then []
    else if IsEscape(s) then [Escaped(s)] + PercentDecoded(s[3..])
    else [s[0]] + PercentDecoded(s[1..])
  }

  /** The decoded bytes, with what is not well-formed replaced. */
  method PercentDecode(s: Bytes) returns (text: Bytes)
    ensures text == Lossy(PercentDecoded(s))
  {
    var decoded: Bytes := [];
    var i := 0;
    assert s[0..] == s && [] + PercentDecoded(s) == PercentDecoded(s);
    while i < |s|
      invariant 0 <= i <= |s|
      invariant decoded + PercentDecoded(s[i..]) == PercentDecoded(s)
    {
      ghost var tail := s[i..];
      if s[i] == PERCENT && i + 2 < |s| && FromHex(s[i + 1]).Some? && FromHex(s[i + 2]).Some? {
        var b := (FromHex(s[i + 1]).value * 16 + FromHex(s[i + 2]).value) as byte;
        assert IsEscape(tail) && Escaped(tail) == b && tail[3..] == s[i + 3..];
        Regroup(decoded, [b], PercentDecoded(s[i + 3..]));
        decoded := decoded + [b];
        i := i + 3;
        continue;
      }
      assert !IsEscape(tail) && tail[1..] == s[i + 1..];
      Regroup(decoded, [s[i]], PercentDecoded(s[i + 1..]));
      decoded := decoded + [s[i]];
      i := i + 1;
    }
    assert decoded + [] == decoded;
    text := Lossy(decoded);
  }

  /** Letters, digits and some signs stand for themselves, everything else is written as "%XY". */
  lemma EscapeMeaning(b: byte)
    ensures var c := b as int as char;
            if c in "ABCDEFGHIJKLMNOPQRSTUVWXYZ" || c in "abcdefghijklmnopqrstuvwxyz" || c in "0123456789"
               || c in "-._~/:"
            then Escape(b) == [b]
            else |Escape(b)| == 3 && Escape(b)[0] as int == '%' as int
                 && Escape(b)[1] as int == "0123456789ABCDEF"[b as int / 16] as int
                 && Escape(b)[2] as int == "0123456789ABCDEF"[b as int % 16] as int
  {
    var c := b as int as char;
    Capitals(c);
    SmallLetters(c);
    Numerals(c);
    HexDigits(b as nat / 16);
    HexDigits(b as nat % 16);
  }

  lemma HexDigits(n: nat)
    requires n < 16
    ensures HexDigit(n) as int == "0123456789ABCDEF"[n] as int
  {
  }

  /** Hexadecimal digits are read in either case. */
  lemma HexMeaning(b: byte, n: nat)
    requires n < 16
    ensures FromHex(b) == Some(n) <==>
              b as int == "0123456789ABCDEF"[n] as int || b as int == "0123456789abcdef"[n] as int
    ensures FromHex(b).Some? ==> FromHex(b).value < 16
  {
  }

  /** Decoding gives back every byte string that was encoded. */
  lemma {:induction false} DecodeInvertsEncode(s: Bytes)
    ensures PercentDecoded(PercentEncode(s)) == s
  {
    if s != [] {
      DecodeInvertsEncode(s[1..]);
      assert s == [s[0]] + s[1..];
    }
  }

  // ---- Paths ----

  function WirePath(p: Bytes): Bytes {
    if VERBATIM_UNC <= p then [BACKSLASH, BACKSLASH] + p[|VERBATIM_UNC|..]
    else if VERBATIM <= p then p[|VERBATIM|..]
    else p
  }

  function Slashed(p: Bytes): Bytes {
    if p == [] then [] else [if p[0] == BACKSLASH then SLASH else p[0]] + Slashed(p[1..])
  }

  predicate Rooted(p: Bytes) {
    p != [] && p[0] == SLASH
  }

  /** A path as text, with forward slashes. */
  function PathText(p: Bytes): Bytes {
    Slashed(WirePath(Lossy(p)))
  }

  /** The path part of a URI: a drive-letter path gets a slash in front. */
  function UriPath(p: Bytes): Bytes {
    if Rooted(PathText(p)) then PathText(p) else [SLASH] + PathText(p)
  }

  function PathToUri(p: Bytes): Bytes {
    SCHEME + (if Rooted(PathText(p)) then [] else [SLASH]) + PercentEncode(PathText(p))
  }

  function FromSlash(s: Bytes): Option<Bytes> {
    if s == [] then None else if s[0] == SLASH then Some(s) else FromSlash(s[1..])
  }

  /** "/X:" at the start. */
  predicate DriveForm(p: Bytes) {
    |p| >= 3 && p[0] == SLASH && IsAlpha(p[1]) && p[2] == COLON
  }

  function UriToPath(uri: Bytes): Option<Bytes> {
    if !(SCHEME <= uri) then None
    else
      match FromSlash(uri[|SCHEME|..])
      case None => None
      case Some(part) =>
        var decoded := Lossy(PercentDecoded(part));
        Some(if DriveForm(decoded) then decoded[1..] else decoded)
  }

  lemma {:induction false} SlashedAt(p: Bytes)
    ensures |Slashed(p)| == |p|
    ensures forall i :: 0 <= i < |p| ==> Slashed(p)[i] == if p[i] == BACKSLASH then SLASH else p[i]
  {
    if p != [] {
      SlashedAt(p[1..]);
    }
  }

  lemma {:induction false} SlashedTail(p: Bytes, n: nat)
    requires n <= |p|
    ensures |Slashed(p)| == |p| && Slashed(p)[n..] == Slashed(p[n..])
  {
    SlashedAt(p);
    SlashedAt(p[n..]);
  }

  /** Slashes for backslashes leave a string well-formed. */
  lemma {:induction false} SlashedIsWellFormed(p: Bytes)
    requires WellFormed(p)
    ensures WellFormed(Slashed(p))
  {
    if p != [] {
      var n := CharLength(p);
      SlashedIsWellFormed(p[n..]);
      SlashedAt(p);
      SlashedTail(p, n);
      assert CharLength(Slashed(p)) == n;
    }
  }

  lemma WireIsWellFormed(p: Bytes)
    requires WellFormed(p)
    ensures WellFormed(WirePath(p))
  {
    if VERBATIM_UNC <= p {
      var rest := p[|VERBATIM_UNC|..];
      assert p == VERBATIM_UNC + rest;
      AsciiInFront(VERBATIM_UNC, rest);
      AsciiInFront([BACKSLASH, BACKSLASH], rest);
    } else if VERBATIM <= p {
      var rest := p[|VERBATIM|..];
      assert p == VERBATIM + rest;
      AsciiInFront(VERBATIM, rest);
    }
  }

  lemma {:induction false} UriPathIsWellFormed(p: Bytes)
    ensures WellFormed(PathText(p)) && WellFormed(UriPath(p))
    ensures DriveForm(UriPath(p)) ==> WellFormed(UriPath(p)[1..])
  {
    LossyIsWellFormed(p);
    WireIsWellFormed(Lossy(p));
    SlashedIsWellFormed(WirePath(Lossy(p)));
    AsciiInFront([SLASH], PathText(p));
    var u := UriPath(p);
    assert u == [SLASH] + u[1..];
    AsciiInFront([SLASH], u[1..]);
  }

  /** Reading a written URI gives the path as text with forward slashes, without the slash in front of
      a drive letter. */
  lemma {:induction false} UriReads(p: Bytes)
    ensures UriToPath(PathToUri(p)) == Some(if DriveForm(UriPath(p)) then UriPath(p)[1..] else UriPath(p))
  {
    var s := PathText(p);
    var lead: Bytes := if Rooted(s) then [] else [SLASH];
    var part := lead + PercentEncode(s);
    Regroup(SCHEME, lead, PercentEncode(s));
    assert PathToUri(p)[|SCHEME|..] == part;
    DecodeInvertsEncode(s);
    PartDecodes(s);
    UriPathIsWellFormed(p);
    WellFormedIsKept(UriPath(p));
  }

  lemma PartDecodes(s: Bytes)
    ensures var part := (if Rooted(s) then [] else [SLASH]) + PercentEncode(s);
            && FromSlash(part) == Some(part)
            && PercentDecoded(part) == (if Rooted(s) then s else [SLASH] + s)
  {
    DecodeInvertsEncode(s);
    if Rooted(s) {
      assert [] + PercentEncode(s) == PercentEncode(s);
    } else {
      var part := [SLASH] + PercentEncode(s);
      assert part[1..] == PercentEncode(s);
      assert !IsEscape(part);
    }
  }

  lemma {:induction false} SlashedMeaning(p: Bytes)
    ensures |Slashed(p)| == |p| && BACKSLASH !in Slashed(p)
    ensures BACKSLASH !in p ==> Slashed(p) == p
  {
    SlashedAt(p);
  }

  ghost predicate Letter(c: char) {
    c in "ABCDEFGHIJKLMNOPQRSTUVWXYZ" || c in "abcdefghijklmnopqrstuvwxyz"
  }

  /** "X:" at the start. */
  ghost predicate Drive(p: Bytes) {
    |p| >= 2 && Letter(p[0] as int as char) && p[1] as int == ':' as int
  }

  lemma DriveMeaning(p: Bytes)
    ensures DriveForm(p) <==> Rooted(p) && Drive(p[1..])
    ensures DriveForm([SLASH] + p) <==> Drive(p)
  {
    assert ([SLASH] + p)[1..] == p;
    if |p| >= 2 {
      LetterMeaning(p[0]);
      LetterMeaning(p[1]);
    }
  }

  lemma LetterMeaning(b: byte)
    ensures IsAlpha(b) <==> Letter(b as int as char)
  {
    Capitals(b as int as char);
    SmallLetters(b as int as char);
  }

  /** A path survives the round trip exactly when it is well-formed UTF-8, has no backslash, and is
      either absolute without looking like "/X:...", or a drive path "X:...". */
  lemma {:induction false} UriRoundTrip(p: Bytes)
    ensures UriToPath(PathToUri(p)) == Some(p) <==>
              && WellFormed(p) && BACKSLASH !in p
              && (if Ascii("/") <= p then !Drive(p[1..]) else Drive(p))
  {
    assert Ascii("/") == [SLASH];
    DriveMeaning(p);
    UriReads(p);
    UriPathIsWellFormed(p);
    LossyKeepsExactly(p);
    SlashedMeaning(WirePath(Lossy(p)));
    if WellFormed(p) && BACKSLASH !in p {
      PlainPath(p);
    }
  }

  /** The URI of a path that is well-formed and has no backslash. */
  lemma UriText(p: Bytes)
    requires WellFormed(p) && BACKSLASH !in p
    ensures PathToUri(p) == Ascii("file://") + (if Ascii("/") <= p then [] else Ascii("/")) + PercentEncode(p)
  {
    PlainPath(p);
    assert SCHEME == Ascii("file://") && [SLASH] == Ascii("/");
  }

  /** The host of a URI is dropped, and anything but a file URI with a path is refused. */
  lemma {:induction false} HostDropped(host: Bytes, part: Bytes)
    requires SLASH !in host && (part == [] || part[0] == SLASH)
    ensures UriToPath(Ascii("file://") + (host + part)) == UriToPath(Ascii("file://") + part)
    ensures UriToPath(Ascii("file://") + host) == None
    ensures !(Ascii("file://") <= part) ==> UriToPath(part) == None
  {
    assert SCHEME == Ascii("file://");
    assert (SCHEME + (host + part))[|SCHEME|..] == host + part && (SCHEME + part)[|SCHEME|..] == part;
    assert (SCHEME + host)[|SCHEME|..] == host;
    FirstSlash(host, part);
    FirstSlash(host, []);
    assert host + [] == host;
  }

  lemma {:induction false} FirstSlash(host: Bytes, part: Bytes)
    requires SLASH !in host && (part == [] || part[0] == SLASH)
    ensures FromSlash(host + part) == if part == [] then None else Some(part)
  {
    if host == [] {
      assert host + part == part;
    } else {
      assert host[0] in host;
      ConcatTail(host, part);
      FirstSlash(host[1..], part);
    }
  }

  /** What marks a path as verbatim is dropped, and backslashes become slashes. */
  lemma PathTexts(rest: Bytes)
    requires WellFormed(rest)
    ensures PathText(Ascii("\\\\?\\UNC\\") + rest) == Slashed([BACKSLASH, BACKSLASH] + rest)
    ensures !(Ascii("UNC\\") <= rest) ==> PathText(Ascii("\\\\?\\") + rest) == Slashed(rest)
    ensures !(Ascii("\\\\?\\") <= rest) ==> PathText(rest) == Slashed(rest)
  {
    VerbatimText();
    AsciiInFront(VERBATIM_UNC, rest);
    AsciiInFront(VERBATIM, rest);
    LossyKeepsExactly(VERBATIM_UNC + rest);
    LossyKeepsExactly(VERBATIM + rest);
    LossyKeepsExactly(rest);
    WireOf(rest);
  }

  lemma VerbatimText()
    ensures Ascii("\\\\?\\UNC\\") == VERBATIM_UNC && Ascii("\\\\?\\") == VERBATIM
  {
  }

  lemma WireOf(rest: Bytes)
    ensures WirePath(VERBATIM_UNC + rest) == [BACKSLASH, BACKSLASH] + rest
    ensures !(Ascii("UNC\\") <= rest) ==> WirePath(VERBATIM + rest) == rest
    ensures !(VERBATIM <= rest) ==> WirePath(rest) == rest
  {
    assert (VERBATIM_UNC + rest)[|VERBATIM_UNC|..] == rest;
    VerbatimWire(rest);
    assert VERBATIM <= VERBATIM_UNC;
  }

  lemma VerbatimWire(rest: Bytes)
    ensures !(Ascii("UNC\\") <= rest) ==> WirePath(VERBATIM + rest) == rest
  {
    var p := VERBATIM + rest;
    assert p[|VERBATIM|..] == rest;
    if VERBATIM_UNC <= p {
      UncText();
      assert rest[..4] == p[4..8] == VERBATIM_UNC[4..8];
    }
  }

  lemma UncText()
    ensures Ascii("UNC\\") == VERBATIM_UNC[4..8]
  {
  }

  lemma {:induction false} PlainPath(p: Bytes)
    requires WellFormed(p) && BACKSLASH !in p
    ensures PathText(p) == p
    ensures !Rooted(p) ==> UriPath(p) == [SLASH] + p && UriPath(p)[1..] == p
  {
    LossyKeepsExactly(p);
    assert VERBATIM[0] == BACKSLASH && VERBATIM_UNC[0] == BACKSLASH;
    SlashedMeaning(p);
  }
}
