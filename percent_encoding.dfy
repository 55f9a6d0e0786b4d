/**
 * The `percent` strategy: `encodeURIComponent` (ECMA-262, section 19.2.6.5, the
 * abstract operation Encode with the unreserved set of encodeURIComponent),
 * wrapped so that a thrown URIError returns the segment unchanged.
 *
 * Escaping is percent-encoding in the sense of section 2.1 of RFC 3986 over the
 * UTF-8 form (section 3 of RFC 3629) of each code point; a lone surrogate has no
 * UTF-8 form and makes the whole call throw.
 */
module PercentEncoding {
  import opened Utf16
  import opened Wrappers

  /** A-Z a-z 0-9 and `- _ . ! ~ * ' ( )`: the code units encodeURIComponent leaves as they are. */
  predicate IsUnreserved(u: int) {
    (0x41 <= u <= 0x5A) || (0x61 <= u <= 0x7A) || (0x30 <= u <= 0x39)
    || u == 0x2D || u == 0x5F || u == 0x2E || u == 0x21 || u == 0x7E
    || u == 0x2A || u == 0x27 || u == 0x28 || u == 0x29
  }

  /** The code point a surrogate pair stands for. */
  function PairCodePoint(hi: int, lo: int): (cp: int)
    requires IsHighSurrogate(hi) && IsLowSurrogate(lo)
    ensures 0x10000 <= cp <= 0x10FFFF
  {
    0x10000 + (hi - 0xD800) * 0x400 + (lo - 0xDC00)
  }

  /** The UTF-8 octets of a code point (the surrogate range never reaches here). */
  function Utf8(cp: nat): (bytes: seq<nat>)
    requires cp <= 0x10FFFF
    ensures 1 <= |bytes| <= 4
    ensures forall i | 0 <= i < |bytes| :: bytes[i] < 0x100
  {
    if cp < 0x80 then [cp]
    else if cp < 0x800 then [0xC0 + cp / 0x40, 0x80 + cp % 0x40]
    else if cp < 0x10000 then [0xE0 + cp / 0x1000, 0x80 + (cp / 0x40) % 0x40, 0x80 + cp % 0x40]
    else [0xF0 + cp / 0x40000, 0x80 + (cp / 0x1000) % 0x40, 0x80 + (cp / 0x40) % 0x40, 0x80 + cp % 0x40]
  }

  /** 0-9 and A-F: the digits of an escape encodeURIComponent writes. */
  predicate IsUpperHexDigit(u: int) {
    (0x30 <= u <= 0x39) || (0x41 <= u <= 0x46)
  }

  /** An upper-case hexadecimal digit. */
  function HexUpper(d: nat): (u: CodeUnit)
    requires d < 16
    ensures IsUpperHexDigit(u) && HexValue(u) == d
  {
    if d < 10 then 0x30 + d else 0x41 + (d - 10)
  }

  /** `%` followed by two upper-case hexadecimal digits. */
  function EscapeByte(b: nat): String
    requires b < 0x100
  {
    [0x25, HexUpper(b / 16), HexUpper(b % 16)]
  }

  function EscapeBytes(bytes: seq<nat>): (r: String)
    requires forall i | 0 <= i < |bytes| :: bytes[i] < 0x100
    ensures |r| == 3 * |bytes|
  {
    if bytes == [] then [] else EscapeByte(bytes[0]) + EscapeBytes(bytes[1..])
  }

  /** Every escape is `%` and two upper-case hexadecimal digits, three code units per octet. */
  lemma {:induction false} EscapeBytesUpper(bytes: seq<nat>)
    requires forall i | 0 <= i < |bytes| :: bytes[i] < 0x100
    ensures forall i | 0 <= i < |bytes| ::
      && EscapeBytes(bytes)[3 * i] == 0x25
      && IsUpperHexDigit(EscapeBytes(bytes)[3 * i + 1])
      && IsUpperHexDigit(EscapeBytes(bytes)[3 * i + 2])
  {
    if bytes != [] {
      var head, tail := EscapeByte(bytes[0]), EscapeBytes(bytes[1..]);
      EscapeBytesUpper(bytes[1..]);
      assert EscapeBytes(bytes) == head + tail;
      var r := head + tail;
      assert r[0] == 0x25 && IsUpperHexDigit(r[1]) && IsUpperHexDigit(r[2]);
      forall i | 1 <= i < |bytes|
        ensures r[3 * i] == 0x25 && IsUpperHexDigit(r[3 * i + 1]) && IsUpperHexDigit(r[3 * i + 2])
      {
        var j := i - 1;
        assert 3 * i == 3 * j + 3;
        assert r[3 * j + 3] == tail[3 * j] && r[3 * j + 4] == tail[3 * j + 1] && r[3 * j + 5] == tail[3 * j + 2];
      }
    }
  }

  function Prepend(prefix: String, r: Option<String>): Option<String> {
    match r
    case None => None
    case Some(t) => Some(prefix + t)
  }

  /**
   * `encodeURIComponent(s)`: `None` where the call throws a URIError (a lone
   * surrogate), otherwise the escaped string.
   */
  function EncodeURIComponent(s: String): Option<String>
    decreases |s|
  {
    if s == [] then Some([])
    else if IsUnreserved(s[0]) then Prepend([s[0]], EncodeURIComponent(s[1..]))
    else if IsLowSurrogate(s[0]) then None
    else if IsHighSurrogate(s[0]) then
      if PairAt(s, 0) then Prepend(EscapeBytes(Utf8(PairCodePoint(s[0], s[1]))), EncodeURIComponent(s[2..]))
      else None
    else Prepend(EscapeBytes(Utf8(s[0])), EncodeURIComponent(s[1..]))
  }

  /** The outcome of two calls joined: the texts when both succeed, a throw otherwise. */
  function Both(x: Option<String>, y: Option<String>): Option<String> {
    if x.Some? && y.Some? then Some(x.value + y.value) else None
  }

  /**
   * encodeURIComponent works code point by code point: on a + b it escapes a and
   * then b, and throws when either half would, unless a ends in a high surrogate
   * that b could complete.
   */
  lemma {:induction false} EncodeURIComponentAppend(a: String, b: String)
    requires a == [] || !IsHighSurrogate(a[|a| - 1])
    ensures EncodeURIComponent(a + b) == Both(EncodeURIComponent(a), EncodeURIComponent(b))
    decreases |a|
  {
    var ab := a + b;
    if a == [] {
      assert ab == b;
      if EncodeURIComponent(b).Some? {
        assert [] + EncodeURIComponent(b).value == EncodeURIComponent(b).value;
      }
    } else if IsUnreserved(a[0]) || !(IsHighSurrogate(a[0]) || IsLowSurrogate(a[0])) {
      var head := if IsUnreserved(a[0]) then [a[0]] else EscapeBytes(Utf8(a[0]));
      assert ab[0] == a[0] && ab[1..] == a[1..] + b;
      assert EncodeURIComponent(a) == Prepend(head, EncodeURIComponent(a[1..]));
      assert EncodeURIComponent(ab) == Prepend(head, EncodeURIComponent(a[1..] + b));
      EncodeURIComponentAppend(a[1..], b);
      PrependBoth(head, EncodeURIComponent(a[1..]), EncodeURIComponent(b));
    } else if PairAt(a, 0) {
      var head := EscapeBytes(Utf8(PairCodePoint(a[0], a[1])));
      assert ab[0] == a[0] && ab[1] == a[1] && ab[2..] == a[2..] + b;
      assert EncodeURIComponent(a) == Prepend(head, EncodeURIComponent(a[2..]));
      assert EncodeURIComponent(ab) == Prepend(head, EncodeURIComponent(a[2..] + b));
      EncodeURIComponentAppend(a[2..], b);
      PrependBoth(head, EncodeURIComponent(a[2..]), EncodeURIComponent(b));
    } else {
      assert ab[0] == a[0];
      assert IsHighSurrogate(a[0]) ==> |a| >= 2 && ab[1] == a[1];
    }
  }

  lemma PrependBoth(p: String, x: Option<String>, y: Option<String>)
    ensures Prepend(p, Both(x, y)) == Both(Prepend(p, x), y)
  {
    if x.Some? && y.Some? {
      assert p + (x.value + y.value) == (p + x.value) + y.value;
    }
  }

  /** One character of `[...s]` on its own: kept, escaped as UTF-8, or a throw for a lone surrogate. */
  lemma PercentOfChar(c: JsChar)
    ensures |c| == 1 && IsUnreserved(c[0]) ==> EncodeURIComponent(c) == Some(c)
    ensures |c| == 1 && (IsHighSurrogate(c[0]) || IsLowSurrogate(c[0])) ==> EncodeURIComponent(c) == None
    ensures |c| == 1 && !IsUnreserved(c[0]) && !IsHighSurrogate(c[0]) && !IsLowSurrogate(c[0])
      ==> EncodeURIComponent(c) == Some(EscapeBytes(Utf8(c[0])))
    ensures |c| == 2 ==> EncodeURIComponent(c) == Some(EscapeBytes(Utf8(PairCodePoint(c[0], c[1]))))
  {
    if |c| == 2 {
      var e := EscapeBytes(Utf8(PairCodePoint(c[0], c[1])));
      assert PairAt(c, 0) && c[2..] == [];
      assert e + [] == e;
    } else {
      assert c[1..] == [] && c == [c[0]] && [c[0]] + [] == c;
      if !IsUnreserved(c[0]) && !IsHighSurrogate(c[0]) && !IsLowSurrogate(c[0]) {
        var e := EscapeBytes(Utf8(c[0]));
        assert e + [] == e;
      }
    }
  }

  /** The `percent` strategy: encodeURIComponent, or the segment itself when that throws. */
  function EncodePercent(s: String): String {
    match EncodeURIComponent(s)
    case Some(r) => r
    case None => s
  }

  /** s[k] is a surrogate that is not half of a pair. */
  predicate LoneAt(s: String, k: nat)
    requires k < |s|
  {
    (IsHighSurrogate(s[k]) && !PairAt(s, k))
    || (IsLowSurrogate(s[k]) && !(k > 0 && PairAt(s, k - 1)))
  }

  predicate HasLoneSurrogate(s: String) {
    exists k | 0 <= k < |s| :: LoneAt(s, k)
  }

  /** Dropping a leading code unit that is not a high surrogate keeps every later lone surrogate lone. */
  lemma LoneAfterOne(s: String)
    requires s != [] && !IsHighSurrogate(s[0])
    ensures HasLoneSurrogate(s) <==> LoneAt(s, 0) || HasLoneSurrogate(s[1..])
  {
    var t := s[1..];
    forall k | 1 <= k < |s| ensures LoneAt(s, k) == LoneAt(t, k - 1) {
      assert s[k] == t[k - 1];
      if k >= 2 { assert PairAt(s, k - 1) == PairAt(t, k - 2); }
    }
    if HasLoneSurrogate(s) && !LoneAt(s, 0) {
      var k :| 0 <= k < |s| && LoneAt(s, k);
      assert LoneAt(t, k - 1);
    }
    if HasLoneSurrogate(t) {
      var k :| 0 <= k < |t| && LoneAt(t, k);
      assert LoneAt(s, k + 1);
    }
  }

  /** Dropping a leading surrogate pair keeps every later lone surrogate lone. */
  lemma LoneAfterPair(s: String)
    requires PairAt(s, 0)
    ensures HasLoneSurrogate(s) <==> HasLoneSurrogate(s[2..])
  {
    var t := s[2..];
    assert !LoneAt(s, 0) && !LoneAt(s, 1);
    forall k | 2 <= k < |s| ensures LoneAt(s, k) == LoneAt(t, k - 2) {
      assert s[k] == t[k - 2];
      if k >= 3 { assert PairAt(s, k - 1) == PairAt(t, k - 3); }
    }
    if HasLoneSurrogate(s) {
      var k :| 0 <= k < |s| && LoneAt(s, k);
      assert LoneAt(t, k - 2);
    }
    if HasLoneSurrogate(t) {
      var k :| 0 <= k < |t| && LoneAt(t, k);
      assert LoneAt(s, k + 2);
    }
  }

  /** encodeURIComponent throws exactly when the string holds a lone surrogate. */
  lemma {:induction false} ThrowsIffLoneSurrogate(s: String)
    ensures EncodeURIComponent(s).None? <==> HasLoneSurrogate(s)
    decreases |s|
  {
    if s == [] {
    } else if PairAt(s, 0) {
      ThrowsIffLoneSurrogate(s[2..]);
      LoneAfterPair(s);
    } else if IsHighSurrogate(s[0]) {
      assert LoneAt(s, 0);
    } else {
      ThrowsIffLoneSurrogate(s[1..]);
      LoneAfterOne(s);
    }
  }

  /** The fail-soft fallback: a segment holding a lone surrogate comes back unchanged. */
  lemma PercentKeepsLoneSurrogateSegment(s: String)
    requires HasLoneSurrogate(s)
    ensures EncodePercent(s) == s
  {
    ThrowsIffLoneSurrogate(s);
  }

  /** A segment made only of unreserved characters comes back unchanged. */
  lemma {:induction false} PercentKeepsUnreserved(s: String)
    requires forall k | 0 <= k < |s| :: IsUnreserved(s[k])
    ensures EncodeURIComponent(s) == Some(s)
    ensures EncodePercent(s) == s
    decreases |s|
  {
    if s != [] {
      PercentKeepsUnreserved(s[1..]);
      assert [s[0]] + s[1..] == s;
    }
  }

  // ----- decodeURIComponent, the partner that undoes the escaping -----

  predicate IsHexDigit(u: int) {
    (0x30 <= u <= 0x39) || (0x41 <= u <= 0x46) || (0x61 <= u <= 0x66)
  }

  function HexValue(u: int): nat
    requires IsHexDigit(u)
  {
    if u <= 0x39 then u - 0x30 else if u <= 0x46 then u - 0x41 + 10 else u - 0x61 + 10
  }

  /** The octet written as `%XX` at position k of t, if there is one. */
  function ByteAt(t: String, k: nat): Option<nat> {
    if k + 3 <= |t| && t[k] == 0x25 && IsHexDigit(t[k + 1]) && IsHexDigit(t[k + 2])
    then Some(HexValue(t[k + 1]) * 16 + HexValue(t[k + 2]))
    else None
  }

  /** A UTF-8 continuation octet `%XX` (0x80..0xBF) at position k, as its six payload bits. */
  function ContinuationAt(t: String, k: nat): Option<nat> {
    match ByteAt(t, k)
    case Some(b) => if 0x80 <= b <= 0xBF then Some(b - 0x80) else None
    case None => None
  }

  /**
   * Reads one escaped UTF-8 sequence at the start of t: its code point and the
   * number of code units it spans. Overlong forms, surrogates and code points past
   * U+10FFFF are refused, as decodeURIComponent refuses them.
   */
  function DecodeSequence(t: String): Option<(nat, nat)> {
    match ByteAt(t, 0)
    case None => None
    case Some(b0) =>
      if b0 < 0x80 then Some((b0, 3))
      else if 0xC0 <= b0 <= 0xDF then
        match ContinuationAt(t, 3)
        case None => None
        case Some(c1) =>
          var cp := (b0 - 0xC0) * 0x40 + c1;
          if cp < 0x80 then None else Some((cp, 6))
      else if 0xE0 <= b0 <= 0xEF then
        match (ContinuationAt(t, 3), ContinuationAt(t, 6))
        case (Some(c1), Some(c2)) =>
          var cp := (b0 - 0xE0) * 0x1000 + c1 * 0x40 + c2;
          if cp < 0x800 || (0xD800 <= cp <= 0xDFFF) then None else Some((cp, 9))
        case _ => None
      else if 0xF0 <= b0 <= 0xF7 then
        match (ContinuationAt(t, 3), ContinuationAt(t, 6), ContinuationAt(t, 9))
        case (Some(c1), Some(c2), Some(c3)) =>
          var cp := (b0 - 0xF0) * 0x40000 + c1 * 0x1000 + c2 * 0x40 + c3;
          if cp < 0x10000 || cp > 0x10FFFF then None else Some((cp, 12))
        case _ => None
      else None
  }

  /** The UTF-16 form of a code point outside the surrogate range. */
  function CodeUnits(cp: nat): String
    requires cp <= 0x10FFFF && !(0xD800 <= cp <= 0xDFFF)
  {
    if cp < 0x10000 then [cp]
    else [0xD800 + (cp - 0x10000) / 0x400, 0xDC00 + (cp - 0x10000) % 0x400]
  }

  /** `decodeURIComponent(t)`: `None` where the call throws a URIError. */
  function DecodeURIComponent(t: String): Option<String>
    decreases |t|
  {
    if t == [] then Some([])
    else if t[0] != 0x25 then Prepend([t[0]], DecodeURIComponent(t[1..]))
    else
      match DecodeSequence(t)
      case None => None
      case Some((cp, n)) =>
        if 3 <= n <= |t| && cp <= 0x10FFFF && !(0xD800 <= cp <= 0xDFFF)
        then Prepend(CodeUnits(cp), DecodeURIComponent(t[n..]))
        else None
  }

  lemma EscapeByteReads(b: nat, rest: String)
    requires b < 0x100
    ensures ByteAt(EscapeByte(b) + rest, 0) == Some(b)
  {
    var t := EscapeByte(b) + rest;
    assert t[1] == HexUpper(b / 16) && t[2] == HexUpper(b % 16);
  }

  lemma {:induction false} EscapeBytesRead(bytes: seq<nat>, rest: String, j: nat)
    requires forall i | 0 <= i < |bytes| :: bytes[i] < 0x100
    requires j < |bytes|
    ensures ByteAt(EscapeBytes(bytes) + rest, 3 * j) == Some(bytes[j])
    decreases j
  {
    var t := EscapeBytes(bytes) + rest;
    var tail := EscapeBytes(bytes[1..]) + rest;
    assert t == EscapeByte(bytes[0]) + tail;
    if j == 0 {
      EscapeByteReads(bytes[0], tail);
    } else {
      EscapeBytesRead(bytes[1..], rest, j - 1);
      assert t[3 * j..3 * j + 3] == tail[3 * (j - 1)..3 * (j - 1) + 3];
    }
  }

  /** The escaped UTF-8 form of a code point decodes to that code point. */
  lemma DecodeEscapedCodePoint(cp: nat, rest: String)
    requires cp <= 0x10FFFF && !(0xD800 <= cp <= 0xDFFF)
    ensures DecodeSequence(EscapeBytes(Utf8(cp)) + rest) == Some((cp, 3 * |Utf8(cp)|))
  {
    EscapeBytesRead(Utf8(cp), rest, 0);
    if cp < 0x80 {
    } else if cp < 0x800 {
      DecodeTwo(cp, rest);
    } else if cp < 0x10000 {
      DecodeThree(cp, rest);
    } else {
      DecodeFour(cp, rest);
    }
  }

  lemma DecodeTwo(cp: nat, rest: String)
    requires 0x80 <= cp < 0x800
    ensures DecodeSequence(EscapeBytes(Utf8(cp)) + rest) == Some((cp, 6))
  {
    var bytes := Utf8(cp);
    var t := EscapeBytes(bytes) + rest;
    EscapeBytesRead(bytes, rest, 0);
    EscapeBytesRead(bytes, rest, 1);
    assert ContinuationAt(t, 3) == Some(cp % 0x40);
  }

  lemma DecodeThree(cp: nat, rest: String)
    requires 0x800 <= cp < 0x10000 && !(0xD800 <= cp <= 0xDFFF)
    ensures DecodeSequence(EscapeBytes(Utf8(cp)) + rest) == Some((cp, 9))
  {
    var bytes := Utf8(cp);
    var t := EscapeBytes(bytes) + rest;
    EscapeBytesRead(bytes, rest, 0);
    EscapeBytesRead(bytes, rest, 1);
    EscapeBytesRead(bytes, rest, 2);
    var c1, c2 := (cp / 0x40) % 0x40, cp % 0x40;
    assert ContinuationAt(t, 3) == Some(c1);
    assert ContinuationAt(t, 6) == Some(c2);
    Recombine3(cp);
  }

  lemma Recombine3(cp: nat)
    ensures (cp / 0x1000) * 0x1000 + ((cp / 0x40) % 0x40) * 0x40 + cp % 0x40 == cp
  {
    var q := cp / 0x40;
    assert cp == q * 0x40 + cp % 0x40;
    assert q / 0x40 == cp / 0x1000;
    assert q == (q / 0x40) * 0x40 + q % 0x40;
  }

  lemma DecodeFour(cp: nat, rest: String)
    requires 0x10000 <= cp <= 0x10FFFF
    ensures DecodeSequence(EscapeBytes(Utf8(cp)) + rest) == Some((cp, 12))
  {
    var bytes := Utf8(cp);
    var t := EscapeBytes(bytes) + rest;
    EscapeBytesRead(bytes, rest, 0);
    EscapeBytesRead(bytes, rest, 1);
    EscapeBytesRead(bytes, rest, 2);
    EscapeBytesRead(bytes, rest, 3);
    var c1, c2, c3 := (cp / 0x1000) % 0x40, (cp / 0x40) % 0x40, cp % 0x40;
    assert ContinuationAt(t, 3) == Some(c1);
    assert ContinuationAt(t, 6) == Some(c2);
    assert ContinuationAt(t, 9) == Some(c3);
    Recombine4(cp);
  }

  lemma Recombine4(cp: nat)
    ensures (cp / 0x40000) * 0x40000 + ((cp / 0x1000) % 0x40) * 0x1000 + ((cp / 0x40) % 0x40) * 0x40 + cp % 0x40 == cp
  {
    var q := cp / 0x40;
    assert cp == q * 0x40 + cp % 0x40;
    var q2 := q / 0x40;
    assert q == q2 * 0x40 + q % 0x40;
    assert q2 == cp / 0x1000;
    assert q2 == (q2 / 0x40) * 0x40 + q2 % 0x40;
    assert q2 / 0x40 == cp / 0x40000;
  }

  lemma PairUnits(hi: int, lo: int)
    requires IsHighSurrogate(hi) && IsLowSurrogate(lo)
    ensures CodeUnits(PairCodePoint(hi, lo)) == [hi, lo]
  {
    var cp := PairCodePoint(hi, lo);
    assert cp - 0x10000 == (hi - 0xD800) * 0x400 + (lo - 0xDC00);
  }

  lemma DecodeStep(prefix: String, cp: nat, rest: String)
    requires cp <= 0x10FFFF && !(0xD800 <= cp <= 0xDFFF)
    requires prefix == EscapeBytes(Utf8(cp))
    ensures DecodeURIComponent(prefix + rest) == Prepend(CodeUnits(cp), DecodeURIComponent(rest))
  {
    var t := prefix + rest;
    DecodeEscapedCodePoint(cp, rest);
    EscapeBytesRead(Utf8(cp), rest, 0);
    assert t[0] == 0x25;
    assert t[|prefix|..] == rest;
  }

  /** decodeURIComponent undoes encodeURIComponent whenever the latter does not throw. */
  lemma {:induction false} PercentRoundTrip(s: String)
    requires !HasLoneSurrogate(s)
    ensures EncodeURIComponent(s).Some?
    ensures DecodeURIComponent(EncodeURIComponent(s).value) == Some(s)
    decreases |s|
  {
    if s == [] {
    } else if IsUnreserved(s[0]) {
      LoneAfterOne(s);
      PercentRoundTrip(s[1..]);
      RoundTripUnreserved(s);
    } else if PairAt(s, 0) {
      LoneAfterPair(s);
      PercentRoundTrip(s[2..]);
      RoundTripPair(s);
    } else {
      assert !LoneAt(s, 0);
      LoneAfterOne(s);
      PercentRoundTrip(s[1..]);
      RoundTripEscaped(s);
    }
  }

  /** An unreserved code unit is copied, then read back as itself. */
  lemma RoundTripUnreserved(s: String)
    requires s != [] && IsUnreserved(s[0])
    requires EncodeURIComponent(s[1..]).Some?
    requires DecodeURIComponent(EncodeURIComponent(s[1..]).value) == Some(s[1..])
    ensures EncodeURIComponent(s).Some?
    ensures DecodeURIComponent(EncodeURIComponent(s).value) == Some(s)
  {
    var r := EncodeURIComponent(s[1..]).value;
    assert ([s[0]] + r)[1..] == r;
    assert [s[0]] + s[1..] == s;
  }

  /** A surrogate pair is escaped as the four octets of its code point, then read back as the pair. */
  lemma RoundTripPair(s: String)
    requires PairAt(s, 0)
    requires EncodeURIComponent(s[2..]).Some?
    requires DecodeURIComponent(EncodeURIComponent(s[2..]).value) == Some(s[2..])
    ensures EncodeURIComponent(s).Some?
    ensures DecodeURIComponent(EncodeURIComponent(s).value) == Some(s)
  {
    var cp := PairCodePoint(s[0], s[1]);
    DecodeStep(EscapeBytes(Utf8(cp)), cp, EncodeURIComponent(s[2..]).value);
    PairUnits(s[0], s[1]);
    assert [s[0], s[1]] + s[2..] == s;
  }

  /** Any other code unit that is not a surrogate is escaped as its UTF-8 octets, then read back. */
  lemma RoundTripEscaped(s: String)
    requires s != [] && !IsUnreserved(s[0]) && !IsHighSurrogate(s[0]) && !IsLowSurrogate(s[0])
    requires EncodeURIComponent(s[1..]).Some?
    requires DecodeURIComponent(EncodeURIComponent(s[1..]).value) == Some(s[1..])
    ensures EncodeURIComponent(s).Some?
    ensures DecodeURIComponent(EncodeURIComponent(s).value) == Some(s)
  {
    DecodeStep(EscapeBytes(Utf8(s[0])), s[0], EncodeURIComponent(s[1..]).value);
    assert [s[0]] + s[1..] == s;
  }
}
