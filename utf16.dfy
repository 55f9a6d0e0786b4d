/**
 * JavaScript strings as the source sees them: sequences of UTF-16 code units.
 * `split`, `length`, `substring`, `charCodeAt`, `replace` and `encodeURIComponent`
 * work on code units; the spread `[...s]` works on code points, which `Chars`
 * models by pairing a high surrogate with the low surrogate that follows it.
 */
module Utf16 {

  /** One UTF-16 code unit. */
  type CodeUnit = u: int | 0 <= u < 0x1_0000

  /** A JavaScript string. */
  type String = seq<CodeUnit>

  predicate IsHighSurrogate(u: int) { 0xD800 <= u <= 0xDBFF }
  predicate IsLowSurrogate(u: int) { 0xDC00 <= u <= 0xDFFF }

  /** True when s[k] is a high surrogate immediately followed by a low surrogate. */
  predicate PairAt(s: String, k: nat) {
    k + 1 < |s| && IsHighSurrogate(s[k]) && IsLowSurrogate(s[k + 1])
  }

  /** No surrogate pair anywhere: every code point of s is a single code unit. */
  predicate NoPairs(s: String) {
    forall k | 0 <= k < |s| :: !PairAt(s, k)
  }

  /**
   * One element of `[...s]`: a single code unit (a BMP character or a lone surrogate)
   * or a high surrogate followed by a low surrogate.
   */
  type JsChar = c: String | |c| == 1 || (|c| == 2 && IsHighSurrogate(c[0]) && IsLowSurrogate(c[1]))
    witness [0]

  /** Concatenation of a sequence of strings (`parts.join('')`). */
  function Concat(ss: seq<String>): String {
    if ss == [] then [] else ss[0] + Concat(ss[1..])
  }

  lemma {:induction false} ConcatAppend(a: seq<String>, b: seq<String>)
    ensures Concat(a + b) == Concat(a) + Concat(b)
  {
    if a == [] {
      assert a + b == b;
    } else {
      assert (a + b)[1..] == a[1..] + b;
      ConcatAppend(a[1..], b);
    }
  }

  /** `[...s]`: the string iterated by code points (see `CharsJoin`). */
  function Chars(s: String): seq<JsChar>
    decreases |s|
  {
    if s == [] then []
    else if PairAt(s, 0) then [s[..2]] + Chars(s[2..])
    else [s[..1]] + Chars(s[1..])
  }

  /** The characters of `[...s]` joined together give s back: nothing is lost or reordered. */
  lemma {:induction false} CharsJoin(s: String)
    ensures Concat(Chars(s)) == s
    decreases |s|
  {
    if s != [] {
      var k := if PairAt(s, 0) then 2 else 1;
      CharsJoin(s[k..]);
      assert s[..k] + s[k..] == s;
    }
  }

  /** A string without surrogate pairs iterates as its code units, one by one. */
  lemma {:induction false} CharsOfNoPairs(s: String)
    requires NoPairs(s)
    ensures |Chars(s)| == |s|
    ensures forall i | 0 <= i < |s| :: Chars(s)[i] == [s[i]]
    decreases |s|
  {
    if s != [] {
      assert !PairAt(s, 0);
      assert NoPairs(s[1..]) by {
        forall k | 0 <= k < |s[1..]| ensures !PairAt(s[1..], k) {
          assert !PairAt(s, k + 1);
        }
      }
      CharsOfNoPairs(s[1..]);
    }
  }

  /**
   * Iterating a concatenation iterates each half in turn, unless the first half
   * ends in a high surrogate that the second half could complete.
   */
  lemma {:induction false} CharsAppend(a: String, b: String)
    requires a == [] || !IsHighSurrogate(a[|a| - 1])
    ensures Chars(a + b) == Chars(a) + Chars(b)
    decreases |a|
  {
    if a == [] {
      assert a + b == b;
    } else {
      var k := if PairAt(a, 0) then 2 else 1;
      FirstCharOfAppend(a, b, k);
      var first, rest := [a[..k]], a[k..];
      CharsAppend(rest, b);
      assert first + (Chars(rest) + Chars(b)) == (first + Chars(rest)) + Chars(b);
    }
  }

  /**
   * The first element of `[...(a + b)]` lies inside a when a does not end in a high
   * surrogate: k is its width, 2 for a pair and 1 otherwise.
   */
  lemma FirstCharOfAppend(a: String, b: String, k: nat)
    requires a != [] && !IsHighSurrogate(a[|a| - 1])
    requires k == if PairAt(a, 0) then 2 else 1
    ensures k <= |a|
    ensures Chars(a) == [a[..k]] + Chars(a[k..])
    ensures Chars(a + b) == [a[..k]] + Chars(a[k..] + b)
    ensures a[k..] == [] || !IsHighSurrogate(a[k..][|a[k..]| - 1])
  {
    var ab := a + b;
    assert PairAt(ab, 0) == PairAt(a, 0) by {
      if |a| == 1 {
        assert !IsHighSurrogate(ab[0]);
      } else {
        assert ab[0] == a[0] && ab[1] == a[1];
      }
    }
    assert ab[..k] == a[..k] && ab[k..] == a[k..] + b;
  }

  /** Slicing a concatenation at the end of its first half gives back both halves. */
  lemma PrefixAndRest(p: String, x: String)
    ensures (p + x)[..|p|] == p && (p + x)[|p|..] == x
  {
  }

  /** A single `JsChar` iterates as itself. */
  lemma CharsOfChar(c: JsChar)
    ensures Chars(c) == [c]
  {
    if |c| == 2 {
      assert c[..2] == c && c[2..] == [];
    } else {
      assert c[..1] == c && c[1..] == [];
    }
  }

  /** ASCII digits and lower-case letters, the digits `Number.prototype.toString` uses. */
  function Digit(d: nat): (u: CodeUnit)
    requires d < 16
  {
    if d < 10 then 0x30 + d else 0x61 + (d - 10)
  }

  predicate IsDigit(u: int, base: nat) {
    (0x30 <= u < 0x30 + (if base < 10 then base else 10))
    || (base > 10 && 0x61 <= u < 0x61 + (base - 10))
  }

  /** The value of a decimal or hexadecimal digit of either case (0 for anything else). */
  function DigitValue(u: int): nat {
    if 0x30 <= u <= 0x39 then u - 0x30
    else if 0x61 <= u <= 0x66 then u - 0x61 + 10
    else if 0x41 <= u <= 0x46 then u - 0x41 + 10
    else 0
  }

  predicate ValidBase(base: nat) { base == 10 || base == 16 }

  /**
   * `n.toString(base)` for a non-negative integer: digits most significant first,
   * lower case, no padding and no leading zero.
   */
  function Digits(n: nat, base: nat): (r: String)
    requires ValidBase(base)
    ensures 0 < |r|
    ensures forall i | 0 <= i < |r| :: IsDigit(r[i], base)
    ensures |r| == 1 || r[0] != 0x30
    decreases n
  {
    if n < base then [Digit(n)] else Digits(n / base, base) + [Digit(n % base)]
  }

  /** The value of a run of digits, most significant first. */
  function ParseDigits(s: String, base: nat): nat {
    if s == [] then 0 else ParseDigits(s[..|s| - 1], base) * base + DigitValue(s[|s| - 1])
  }

  lemma {:induction false} DigitsRoundTrip(n: nat, base: nat)
    requires ValidBase(base)
    ensures ParseDigits(Digits(n, base), base) == n
    decreases n
  {
    var r := Digits(n, base);
    if n >= base {
      DigitsRoundTrip(n / base, base);
      assert r[..|r| - 1] == Digits(n / base, base);
      assert DigitValue(r[|r| - 1]) == n % base;
    }
  }

  /** `parts.join([sep])`. */
  function JoinWith(parts: seq<String>, sep: CodeUnit): String {
    if |parts| == 0 then []
    else if |parts| == 1 then parts[0]
    else parts[0] + [sep] + JoinWith(parts[1..], sep)
  }

  /** `s.split([sep])` for a one-unit separator: never empty, as JavaScript's. */
  function SplitOn(s: String, sep: CodeUnit): (r: seq<String>)
    ensures 0 < |r|
    ensures forall i | 0 <= i < |r| :: sep !in r[i]
    ensures JoinWith(r, sep) == s
    decreases |s|
  {
    if s == [] then [[]]
    else
      var rest := SplitOn(s[1..], sep);
      if s[0] == sep then [[]] + rest
      else [[s[0]] + rest[0]] + rest[1..]
  }

  /** Splitting what `JoinWith` joined gives the parts back, when no part holds the separator. */
  lemma {:induction false} SplitJoin(parts: seq<String>, sep: CodeUnit)
    requires 0 < |parts|
    requires forall i | 0 <= i < |parts| :: sep !in parts[i]
    ensures SplitOn(JoinWith(parts, sep), sep) == parts
    decreases |parts|, |parts[0]|
  {
    var p := parts[0];
    if |parts| == 1 {
      SplitNoSep(p, sep);
    } else if p == [] {
      var t := JoinWith(parts[1..], sep);
      assert JoinWith(parts, sep) == [sep] + t;
      assert ([sep] + t)[1..] == t;
      SplitJoin(parts[1..], sep);
    } else {
      var shorter := [p[1..]] + parts[1..];
      assert shorter[1..] == parts[1..];
      assert JoinWith(parts, sep)[1..] == JoinWith(shorter, sep);
      SplitJoin(shorter, sep);
      assert [p[0]] + p[1..] == p;
    }
  }

  lemma {:induction false} SplitNoSep(s: String, sep: CodeUnit)
    requires sep !in s
    ensures SplitOn(s, sep) == [s]
    decreases |s|
  {
    if s != [] {
      SplitNoSep(s[1..], sep);
      assert [s[0]] + s[1..] == s;
    }
  }

  /** ECMAScript WhiteSpace and LineTerminator code units: what `String.prototype.trim` strips. */
  predicate IsTrimmable(u: int) {
    u == 0x09 || u == 0x0A || u == 0x0B || u == 0x0C || u == 0x0D || u == 0x20 || u == 0xA0
    || u == 0x1680 || (0x2000 <= u <= 0x200A) || u == 0x2028 || u == 0x2029
    || u == 0x202F || u == 0x205F || u == 0x3000 || u == 0xFEFF
  }

  function TrimStart(s: String): String {
    if s != [] && IsTrimmable(s[0]) then TrimStart(s[1..]) else s
  }

  function TrimEnd(s: String): String {
    if s != [] && IsTrimmable(s[|s| - 1]) then TrimEnd(s[..|s| - 1]) else s
  }

  /** `s.trim()`. */
  function Trim(s: String): String { TrimEnd(TrimStart(s)) }

  /** `s.trim() === ''` exactly when every code unit of s is white space or a line terminator. */
  lemma {:induction false} TrimEmptyIffBlank(s: String)
    ensures Trim(s) == [] <==> forall k | 0 <= k < |s| :: IsTrimmable(s[k])
    decreases |s|
  {
    if s != [] {
      if IsTrimmable(s[0]) {
        TrimEmptyIffBlank(s[1..]);
        assert forall k | 1 <= k < |s| :: s[k] == s[1..][k - 1];
      } else {
        TrimEndKeepsFirst(s);
      }
    }
  }

  lemma {:induction false} TrimEndKeepsFirst(s: String)
    requires s != [] && !IsTrimmable(s[0])
    ensures TrimEnd(s) != []
    decreases |s|
  {
    if |s| > 1 && IsTrimmable(s[|s| - 1]) {
      TrimEndKeepsFirst(s[..|s| - 1]);
    }
  }

  /** The upper case of an ASCII letter; every other code unit is kept. */
  function AsciiUpper(u: CodeUnit): (r: CodeUnit)
    ensures 0x61 <= u <= 0x7A ==> r == u - 0x20
    ensures !(0x61 <= u <= 0x7A) ==> r == u
  {
    if 0x61 <= u <= 0x7A then u - 0x20 else u
  }
}
