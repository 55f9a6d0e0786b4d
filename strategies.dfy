/**
 * The six encoding strategies of the URL encoder and the `encoders` table that
 * selects one by method name. Every strategy is a total function on strings.
 */
module Strategies {
  import opened Utf16
  import opened Wrappers
  import PercentEncoding

  /** The encoding methods a user can choose. */
  datatype EncodingMethod = Hex | Dec | Named | Percent | Mixed | Custom

  /** A custom map after parsing: own string-valued properties, looked up by key. */
  type CustomMap = map<String, String>

  /** `[...s].map(f).join('')` over the characters of a string. */
  function MapChars(cs: seq<JsChar>, f: JsChar -> String): String {
    if cs == [] then [] else f(cs[0]) + MapChars(cs[1..], f)
  }

  lemma {:induction false} MapCharsAppend(xs: seq<JsChar>, ys: seq<JsChar>, f: JsChar -> String)
    ensures MapChars(xs + ys, f) == MapChars(xs, f) + MapChars(ys, f)
  {
    if xs == [] {
      assert xs + ys == ys;
    } else {
      assert (xs + ys)[1..] == xs[1..] + ys;
      MapCharsAppend(xs[1..], ys, f);
    }
  }

  // ----- hex and dec: HTML numeric character references -----

  const HexRefOpen: String := [0x26, 0x23, 0x78]  // &#x
  const DecRefOpen: String := [0x26, 0x23]        // &#
  const RefClose: String := [0x3B]                // ;

  /**
   * The reference for one character: `c.charCodeAt(0)` is its FIRST code unit, so a
   * character outside the BMP is written as its high surrogate.
   */
  function HexRef(c: JsChar): String {
    HexRefOpen + Digits(c[0], 16) + RefClose
  }

  function DecRef(c: JsChar): String {
    DecRefOpen + Digits(c[0], 10) + RefClose
  }

  function EncodeHex(s: String): String { MapChars(Chars(s), HexRef) }

  function EncodeDec(s: String): String { MapChars(Chars(s), DecRef) }

  /** The code unit each hex or dec reference names: the first unit of every character. */
  function FirstUnits(cs: seq<JsChar>): (r: String)
    ensures |r| == |cs|
    ensures forall i | 0 <= i < |cs| :: r[i] == cs[i][0]
  {
    if cs == [] then [] else [cs[0][0]] + FirstUnits(cs[1..])
  }

  /** The prefix of a numeric reference in the given base: `&#x` or `&#`. */
  function RefPrefix(base: nat): String {
    if base == 16 then HexRefOpen else DecRefOpen
  }

  /** The longest run of digits of the base at the start of t (either case for hex). */
  function DigitRun(t: String, base: nat): (d: String)
    ensures |d| <= |t| && d == t[..|d|]
    ensures forall i | 0 <= i < |d| :: IsDigit(d[i], base) || (base == 16 && 0x41 <= d[i] <= 0x46)
  {
    if t != [] && (IsDigit(t[0], base) || (base == 16 && 0x41 <= t[0] <= 0x46))
    then [t[0]] + DigitRun(t[1..], base)
    else []
  }

  /**
   * Reads back a text made only of numeric references `&#xH;` (base 16) or `&#D;`
   * (base 10), each naming one code unit: the number is taken literally.
   */
  function DecodeNumericRefs(t: String, base: nat): Option<String>
    requires ValidBase(base)
    decreases |t|
  {
    var p := RefPrefix(base);
    if t == [] then Some([])
    else if |p| <= |t| && t[..|p|] == p then
      var d := DigitRun(t[|p|..], base);
      var semi := |p| + |d|;
      if 0 < |d| && semi < |t| && t[semi] == 0x3B && ParseDigits(d, base) < 0x1_0000
      then PercentEncoding.Prepend([ParseDigits(d, base)], DecodeNumericRefs(t[semi + 1..], base))
      else None
    else None
  }

  lemma {:induction false} DigitRunOfDigits(d: String, rest: String, base: nat)
    requires ValidBase(base)
    requires forall i | 0 <= i < |d| :: IsDigit(d[i], base)
    requires rest != [] && rest[0] == 0x3B
    ensures DigitRun(d + rest, base) == d
    decreases |d|
  {
    if d != [] {
      assert (d + rest)[1..] == d[1..] + rest;
      DigitRunOfDigits(d[1..], rest, base);
    }
  }

  /** One reference followed by anything reads back as its code unit. */
  lemma DecodeOneRef(u: CodeUnit, rest: String, base: nat)
    requires ValidBase(base)
    ensures DecodeNumericRefs(RefPrefix(base) + Digits(u, base) + RefClose + rest, base)
         == PercentEncoding.Prepend([u], DecodeNumericRefs(rest, base))
  {
    var p := RefPrefix(base);
    var d := Digits(u, base);
    var y := RefClose + rest;
    var x := d + y;
    var t := p + x;
    assert t == p + d + RefClose + rest;
    PrefixAndRest(p, x);
    PrefixAndRest(d, y);
    assert t[|p| + |d|] == y[0] == 0x3B;
    assert t[|p| + |d| + 1..] == x[|d| + 1..] == y[1..] == rest;
    DigitRunOfDigits(d, y, base);
    DigitsRoundTrip(u, base);
  }

  lemma {:induction false} NumericRefsRoundTrip(cs: seq<JsChar>, base: nat)
    requires ValidBase(base)
    ensures DecodeNumericRefs(MapChars(cs, if base == 16 then HexRef else DecRef), base) == Some(FirstUnits(cs))
  {
    var f := if base == 16 then HexRef else DecRef;
    if cs != [] {
      NumericRefsRoundTrip(cs[1..], base);
      assert f(cs[0]) == RefPrefix(base) + Digits(cs[0][0], base) + RefClose;
      DecodeOneRef(cs[0][0], MapChars(cs[1..], f), base);
    }
  }

  /**
   * Reading the references of `hex` back gives the first code unit of every
   * character; for a string without surrogate pairs, the string itself.
   */
  lemma HexRoundTrip(s: String)
    ensures DecodeNumericRefs(EncodeHex(s), 16) == Some(FirstUnits(Chars(s)))
    ensures NoPairs(s) ==> DecodeNumericRefs(EncodeHex(s), 16) == Some(s)
  {
    NumericRefsRoundTrip(Chars(s), 16);
    if NoPairs(s) { FirstUnitsOfNoPairs(s); }
  }

  /** The same for `dec`. */
  lemma DecRoundTrip(s: String)
    ensures DecodeNumericRefs(EncodeDec(s), 10) == Some(FirstUnits(Chars(s)))
    ensures NoPairs(s) ==> DecodeNumericRefs(EncodeDec(s), 10) == Some(s)
  {
    NumericRefsRoundTrip(Chars(s), 10);
    if NoPairs(s) { FirstUnitsOfNoPairs(s); }
  }

  lemma FirstUnitsOfNoPairs(s: String)
    requires NoPairs(s)
    ensures FirstUnits(Chars(s)) == s
  {
    CharsOfNoPairs(s);
    var r := FirstUnits(Chars(s));
    assert |r| == |s|;
    forall i | 0 <= i < |s| ensures r[i] == s[i] {
      assert Chars(s)[i] == [s[i]];
    }
  }

  /** A single code unit (a BMP character or a lone surrogate) is written as the reference to itself. */
  lemma RefOfCodeUnit(u: CodeUnit)
    ensures EncodeHex([u]) == HexRefOpen + Digits(u, 16) + RefClose
    ensures EncodeDec([u]) == DecRefOpen + Digits(u, 10) + RefClose
  {
    var c: JsChar := [u];
    CharsOfChar(c);
    assert [c][1..] == [];
    assert MapChars([c], HexRef) == HexRef(c);
    assert MapChars([c], DecRef) == DecRef(c);
  }

  /**
   * `hex` and `dec` work character by character: the encoding of a + b is that of a
   * followed by that of b, unless a ends in a high surrogate b could complete.
   */
  lemma RefsAppend(a: String, b: String)
    requires a == [] || !IsHighSurrogate(a[|a| - 1])
    ensures EncodeHex(a + b) == EncodeHex(a) + EncodeHex(b)
    ensures EncodeDec(a + b) == EncodeDec(a) + EncodeDec(b)
  {
    CharsAppend(a, b);
    MapCharsAppend(Chars(a), Chars(b), HexRef);
    MapCharsAppend(Chars(a), Chars(b), DecRef);
  }

  /** A character outside the BMP is written as the reference to its high surrogate. */
  lemma HexOfAstral(hi: CodeUnit, lo: CodeUnit)
    requires IsHighSurrogate(hi) && IsLowSurrogate(lo)
    ensures EncodeHex([hi, lo]) == HexRefOpen + Digits(hi, 16) + RefClose
    ensures EncodeDec([hi, lo]) == DecRefOpen + Digits(hi, 10) + RefClose
  {
    var c: JsChar := [hi, lo];
    CharsOfChar(c);
    assert [c][1..] == [];
    assert MapChars([c], HexRef) == HexRef(c);
    assert MapChars([c], DecRef) == DecRef(c);
  }

  // ----- named: the five HTML entities -----

  const AmpEntity: String := [0x26, 0x61, 0x6D, 0x70, 0x3B]         // &amp;
  const LtEntity: String := [0x26, 0x6C, 0x74, 0x3B]                // &lt;
  const GtEntity: String := [0x26, 0x67, 0x74, 0x3B]                // &gt;
  const QuotEntity: String := [0x26, 0x71, 0x75, 0x6F, 0x74, 0x3B]  // &quot;
  const AposEntity: String := [0x26, 0x23, 0x33, 0x39, 0x3B]        // &#39;

  /** `htmlMap`: & < > " ' and their entities. */
  function HtmlEntity(u: CodeUnit): Option<String> {
    if u == 0x26 then Some(AmpEntity)
    else if u == 0x3C then Some(LtEntity)
    else if u == 0x3E then Some(GtEntity)
    else if u == 0x22 then Some(QuotEntity)
    else if u == 0x27 then Some(AposEntity)
    else None
  }

  predicate IsHtmlSpecial(u: CodeUnit) { HtmlEntity(u).Some? }

  /** `s.replace(/[&<>"']/g, c => htmlMap[c] || c)`, code unit by code unit. */
  function EncodeNamed(s: String): String
    decreases |s|
  {
    if s == [] then []
    else
      (match HtmlEntity(s[0]) case Some(e) => e case None => [s[0]])
      + EncodeNamed(s[1..])
  }

  /** `named` leaves a string without & < > " ' unchanged. */
  lemma {:induction false} NamedIdentityOnSafe(s: String)
    requires forall k | 0 <= k < |s| :: !IsHtmlSpecial(s[k])
    ensures EncodeNamed(s) == s
    decreases |s|
  {
    if s != [] {
      NamedIdentityOnSafe(s[1..]);
      assert [s[0]] + s[1..] == s;
    }
  }

  /** After `named`, none of < > " ' is left, and every & begins one of the five entities. */
  lemma {:induction false} NamedOutputSafe(s: String)
    ensures forall k | 0 <= k < |EncodeNamed(s)| ::
      EncodeNamed(s)[k] !in {0x3C, 0x3E, 0x22, 0x27}
    ensures forall k | 0 <= k < |EncodeNamed(s)| && EncodeNamed(s)[k] == 0x26 ::
      StartsEntity(EncodeNamed(s)[k..])
    decreases |s|
  {
    if s != [] {
      NamedOutputSafe(s[1..]);
      var head := match HtmlEntity(s[0]) case Some(e) => e case None => [s[0]];
      var t := EncodeNamed(s);
      assert t == head + EncodeNamed(s[1..]);
      forall k | 0 <= k < |t| && t[k] == 0x26 ensures StartsEntity(t[k..]) {
        if k >= |head| {
          assert t[k..] == EncodeNamed(s[1..])[k - |head|..];
        } else {
          assert k == 0;
          assert t[..|head|] == head;
        }
      }
    }
  }

  /** The entity the text starts with, if any. */
  function LeadingEntity(t: String): Option<(CodeUnit, nat)> {
    if |t| >= 5 && t[..5] == AmpEntity then Some((0x26, 5))
    else if |t| >= 4 && t[..4] == LtEntity then Some((0x3C, 4))
    else if |t| >= 4 && t[..4] == GtEntity then Some((0x3E, 4))
    else if |t| >= 6 && t[..6] == QuotEntity then Some((0x22, 6))
    else if |t| >= 5 && t[..5] == AposEntity then Some((0x27, 5))
    else None
  }

  predicate StartsEntity(t: String) { LeadingEntity(t).Some? }

  /** Replaces each of the five entities by its character; everything else is kept. */
  function UnescapeNamed(t: String): String
    decreases |t|
  {
    if t == [] then []
    else match LeadingEntity(t)
      case Some((u, n)) => [u] + UnescapeNamed(t[n..])
      case None => [t[0]] + UnescapeNamed(t[1..])
  }

  lemma UnescapeStep(u: CodeUnit, rest: String)
    ensures UnescapeNamed((match HtmlEntity(u) case Some(e) => e case None => [u]) + rest)
         == [u] + UnescapeNamed(rest)
  {
    var head := match HtmlEntity(u) case Some(e) => e case None => [u];
    var t := head + rest;
    assert t[0] == head[0];
    if u == 0x26 {
      assert t[..5] == AmpEntity;
    } else if u == 0x3C {
      assert t[1] == 0x6C;
      assert t[..4] == LtEntity;
    } else if u == 0x3E {
      assert t[1] == 0x67;
      assert t[..4] == GtEntity;
    } else if u == 0x22 {
      assert t[1] == 0x71;
      assert t[..6] == QuotEntity;
    } else if u == 0x27 {
      assert t[1] == 0x23;
      assert t[..5] == AposEntity;
    } else {
      assert t[0] == u != 0x26;
      assert LeadingEntity(t) == None;
    }
    assert t[|head|..] == rest;
  }

  /** Unescaping the five entities undoes `named`. */
  lemma {:induction false} NamedRoundTrip(s: String)
    ensures UnescapeNamed(EncodeNamed(s)) == s
    decreases |s|
  {
    if s != [] {
      UnescapeStep(s[0], EncodeNamed(s[1..]));
      NamedRoundTrip(s[1..]);
      assert [s[0]] + s[1..] == s;
    }
  }

  // ----- custom: a user-supplied character map -----

  /** `map[c] || c`: the mapped value when there is a non-empty one, else the character. */
  function CustomValue(m: CustomMap, c: JsChar): String {
    if c in m && m[c] != [] then m[c] else c
  }

  function EncodeCustom(s: String, m: CustomMap): String {
    MapChars(Chars(s), c => CustomValue(m, c))
  }

  lemma {:induction false} MapCharsIdentity(cs: seq<JsChar>, f: JsChar -> String)
    requires forall i | 0 <= i < |cs| :: f(cs[i]) == cs[i]
    ensures MapChars(cs, f) == Concat(cs)
  {
    if cs != [] {
      MapCharsIdentity(cs[1..], f);
    }
  }

  /**
   * Characters the map does not name, or names with the empty string, are kept;
   * so a string none of whose characters has a non-empty value is unchanged.
   */
  lemma CustomKeepsUnmapped(s: String, m: CustomMap)
    requires forall i | 0 <= i < |Chars(s)| :: Chars(s)[i] !in m || m[Chars(s)[i]] == []
    ensures EncodeCustom(s, m) == s
  {
    MapCharsIdentity(Chars(s), c => CustomValue(m, c));
    CharsJoin(s);
  }

  /** With no map (the `map || {}` default) `custom` is the identity. */
  lemma CustomWithoutMap(s: String)
    ensures EncodeCustom(s, map[]) == s
  {
    MapCharsIdentity(Chars(s), c => CustomValue(map[], c));
    CharsJoin(s);
  }

  /** A key that is not one character is never looked up: removing it changes nothing. */
  lemma {:induction false} CustomIgnoresLongKeys(cs: seq<JsChar>, m: CustomMap, k: String)
    requires !(|k| == 1 || (|k| == 2 && IsHighSurrogate(k[0]) && IsLowSurrogate(k[1])))
    ensures MapChars(cs, c => CustomValue(m, c)) == MapChars(cs, c => CustomValue(m - {k}, c))
  {
    if cs != [] {
      assert cs[0] != k;
      CustomIgnoresLongKeys(cs[1..], m, k);
    }
  }

  /** Every character with a non-empty value is replaced by exactly that value. */
  lemma CustomReplacesMapped(s: String, m: CustomMap)
    requires forall i | 0 <= i < |Chars(s)| :: Chars(s)[i] in m && m[Chars(s)[i]] != []
    ensures EncodeCustom(s, m) == MapChars(Chars(s), c => if c in m then m[c] else c)
  {
    MapCharsPointwise(Chars(s), c => CustomValue(m, c), c => if c in m then m[c] else c);
  }

  /** `[...c]` of a single character is that character alone, so `custom` gives its value `map[c] || c`. */
  lemma CustomOfChar(c: JsChar, m: CustomMap)
    ensures EncodeCustom(c, m) == CustomValue(m, c)
  {
    var f := x => CustomValue(m, x);
    CharsOfChar(c);
    assert EncodeCustom(c, m) == MapChars([c], f);
    assert [c][1..] == [];
    assert MapChars([c], f) == f(c) + MapChars([], f);
  }

  /**
   * `custom` works character by character: the encoding of a + b is that of a
   * followed by that of b, unless a ends in a high surrogate b could complete.
   */
  lemma CustomAppend(a: String, b: String, m: CustomMap)
    requires a == [] || !IsHighSurrogate(a[|a| - 1])
    ensures EncodeCustom(a + b, m) == EncodeCustom(a, m) + EncodeCustom(b, m)
  {
    CharsAppend(a, b);
    MapCharsAppend(Chars(a), Chars(b), c => CustomValue(m, c));
  }

  /**
   * Whatever mix of mapped and unmapped characters s holds, `custom` writes
   * `map[c] || c` for each character c of `[...s]`, in order, and nothing else.
   */
  lemma CustomEachCharacter(s: String, m: CustomMap, values: seq<String>)
    requires |values| == |Chars(s)|
    requires forall i | 0 <= i < |values| :: values[i] == CustomValue(m, Chars(s)[i])
    ensures EncodeCustom(s, m) == Concat(values)
  {
    MapCharsConcat(Chars(s), c => CustomValue(m, c), values);
  }

  lemma {:induction false} MapCharsConcat(cs: seq<JsChar>, f: JsChar -> String, values: seq<String>)
    requires |values| == |cs|
    requires forall i | 0 <= i < |cs| :: values[i] == f(cs[i])
    ensures MapChars(cs, f) == Concat(values)
  {
    if cs != [] {
      MapCharsConcat(cs[1..], f, values[1..]);
    }
  }

  lemma {:induction false} MapCharsPointwise(cs: seq<JsChar>, f: JsChar -> String, g: JsChar -> String)
    requires forall i | 0 <= i < |cs| :: f(cs[i]) == g(cs[i])
    ensures MapChars(cs, f) == MapChars(cs, g)
  {
    if cs != [] {
      MapCharsPointwise(cs[1..], f, g);
    }
  }

  // ----- mixed: a four-way cycle by character index -----

  /** `[encodeHex, encodeDec, encodeNamed, encodePercent][i % 4]`. */
  function Cycle(i: nat): EncodingMethod {
    [Hex, Dec, Named, Percent][i % 4]
  }

  /** One of the four basic strategies applied to a one-character string. */
  function Basic(i: nat, c: JsChar): String {
    match i % 4
    case 0 => EncodeHex(c)
    case 1 => EncodeDec(c)
    case 2 => EncodeNamed(c)
    case _ => PercentEncoding.EncodePercent(c)
  }

  /** The characters from index i on, each through the strategy its index selects. */
  function MixedFrom(cs: seq<JsChar>, i: nat): String {
    if cs == [] then [] else Basic(i, cs[0]) + MixedFrom(cs[1..], i + 1)
  }

  function EncodeMixed(s: String): String { MixedFrom(Chars(s), 0) }

  // ----- the `encoders` table -----

  /** `encoders[how](s, map)`; the empty string encodes to itself under every method. */
  function Encode(how: EncodingMethod, s: String, m: CustomMap): (r: String)
    ensures s == [] ==> r == []
  {
    match how
    case Hex => EncodeHex(s)
    case Dec => EncodeDec(s)
    case Named => EncodeNamed(s)
    case Percent => PercentEncoding.EncodePercent(s)
    case Mixed => EncodeMixed(s)
    case Custom => EncodeCustom(s, m)
  }

  lemma BasicIsCycle(i: nat, c: JsChar, m: CustomMap)
    ensures Basic(i, c) == Encode(Cycle(i), c, m)
  {
  }

  lemma {:induction false} MixedFromCycle(cs: seq<JsChar>, i: nat, m: CustomMap, parts: seq<String>)
    requires |parts| == |cs|
    requires forall j | 0 <= j < |cs| :: parts[j] == Encode(Cycle(i + j), cs[j], m)
    ensures MixedFrom(cs, i) == Concat(parts)
  {
    if cs != [] {
      MixedFromCycle(cs[1..], i + 1, m, parts[1..]);
      BasicIsCycle(i, cs[0], m);
    }
  }

  /**
   * `mixed` encodes the character at index i of the segment (i counted from 0 in
   * every segment) with the i % 4-th of hex, dec, named, percent applied to that
   * character alone: the output is the concatenation of those single-character
   * encodings, in order.
   */
  lemma MixedCycles(s: String, m: CustomMap, parts: seq<String>)
    requires |parts| == |Chars(s)|
    requires forall i | 0 <= i < |parts| :: parts[i] == Encode(Cycle(i), Chars(s)[i], m)
    ensures EncodeMixed(s) == Concat(parts)
  {
    MixedFromCycle(Chars(s), 0, m, parts);
  }
}
