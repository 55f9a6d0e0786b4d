/**
 * `encodeUrlSmart`: split a URL into separators and content, then emit every part
 * that `separators.test(part)` accepts verbatim and pass the others through the
 * selected strategy. The regular expression carries the global flag, so each call
 * of `test` starts at the `lastIndex` the previous call left behind.
 */
module SmartEncoder {
  import opened Utf16
  import opened Strategies
  import opened Tokenizer

  /**
   * `parts.map(part => separators.test(part) ? part : encoder(part))` with
   * `separators.lastIndex` equal to `last` before the first part.
   */
  function EncodeParts(parts: seq<String>, last: nat, how: EncodingMethod, m: CustomMap): (r: seq<String>)
    ensures |r| == |parts|
  {
    if parts == [] then []
    else
      var t := Test(parts[0], last);
      [if t.0 then parts[0] else Encode(how, parts[0], m)] + EncodeParts(parts[1..], t.1, how, m)
  }

  /** The result of `encodeUrlSmart(url, how, m)`: `separators` is a fresh literal, so `lastIndex` starts at 0. */
  function SmartEncoded(url: String, how: EncodingMethod, m: CustomMap): String {
    Concat(EncodeParts(Parts(url), 0, how, m))
  }

  /** `encodeUrlSmart`, with the `lastIndex` of the regular expression as a local variable. */
  method EncodeUrlSmart(url: String, how: EncodingMethod, m: CustomMap) returns (r: String)
    ensures r == SmartEncoded(url, how, m)
  {
    var parts := Parts(url);
    r := MapAndJoin(parts, how, m);
  }

  /** The `map` with its stateful test, then `join('')`. */
  method MapAndJoin(parts: seq<String>, how: EncodingMethod, m: CustomMap) returns (r: String)
    ensures r == Concat(EncodeParts(parts, 0, how, m))
  {
    var lastIndex: nat := 0;
    r := [];
    var i := 0;
    while i < |parts|
      invariant 0 <= i <= |parts|
      invariant r + Concat(EncodeParts(parts[i..], lastIndex, how, m)) == Concat(EncodeParts(parts, 0, how, m))
    {
      var piece, next := MapCallback(parts, i, lastIndex, how, m);
      assert (r + piece) + Concat(EncodeParts(parts[i + 1..], next, how, m))
          == r + Concat(EncodeParts(parts[i..], lastIndex, how, m));
      r := r + piece;
      lastIndex := next;
      i := i + 1;
    }
  }

  /**
   * The callback of the `map` on part i: the part itself when the test succeeds and
   * its encoding otherwise, and the `lastIndex` the test leaves behind.
   */
  method MapCallback(parts: seq<String>, i: nat, lastIndex: nat, how: EncodingMethod, m: CustomMap)
    returns (piece: String, next: nat)
    requires i < |parts|
    ensures piece + Concat(EncodeParts(parts[i + 1..], next, how, m))
      == Concat(EncodeParts(parts[i..], lastIndex, how, m))
  {
    var part := parts[i];
    var hit: bool;
    hit, next := Test(part, lastIndex).0, Test(part, lastIndex).1;
    if hit {
      piece := part;
    } else {
      piece := Encode(how, part, m);
    }
    EncodePartsFrom(parts, i, lastIndex, how, m);
  }

  /** One step of the `map`: the part at i, then the rest from the `lastIndex` its test left. */
  lemma EncodePartsFrom(parts: seq<String>, i: nat, last: nat, how: EncodingMethod, m: CustomMap)
    requires i < |parts|
    ensures Concat(EncodeParts(parts[i..], last, how, m))
      == (if Test(parts[i], last).0 then parts[i] else Encode(how, parts[i], m))
         + Concat(EncodeParts(parts[i + 1..], Test(parts[i], last).1, how, m))
  {
    assert parts[i..][1..] == parts[i + 1..];
  }

  // ----- where `lastIndex` stands when each part is tested -----

  /** `separators.lastIndex` just before part i is tested. */
  function LastIndexBefore(parts: seq<String>, last: nat, i: nat): nat
    requires i <= |parts|
    decreases i
  {
    if i == 0 then last else LastIndexBefore(parts[1..], Test(parts[0], last).1, i - 1)
  }

  /** Whether `separators.test(parts[i])` succeeds, so that part i is emitted verbatim. */
  predicate KeptVerbatim(parts: seq<String>, last: nat, i: nat)
    requires i < |parts|
  {
    Test(parts[i], LastIndexBefore(parts, last, i)).0
  }

  /** Each `lastIndex` is the one the test of the previous part left behind. */
  lemma {:induction false} LastIndexStep(parts: seq<String>, last: nat, i: nat)
    requires i < |parts|
    ensures LastIndexBefore(parts, last, i + 1) == Test(parts[i], LastIndexBefore(parts, last, i)).1
    decreases i
  {
    if i > 0 {
      LastIndexStep(parts[1..], Test(parts[0], last).1, i - 1);
    }
  }

  /** Part i of the output is part i verbatim when its test succeeds, and encoded otherwise. */
  lemma {:induction false} EncodePartsAt(parts: seq<String>, last: nat, how: EncodingMethod, m: CustomMap, i: nat)
    requires i < |parts|
    ensures EncodeParts(parts, last, how, m)[i]
      == if KeptVerbatim(parts, last, i) then parts[i] else Encode(how, parts[i], m)
    decreases i
  {
    if i > 0 {
      EncodePartsAt(parts[1..], Test(parts[0], last).1, how, m, i - 1);
      assert parts[1..][i - 1] == parts[i];
    }
  }

  /**
   * The test on a tokenizer part, told from the part's shape alone: content never
   * matches; a separator matches from a `lastIndex` of 0 and leaves its length;
   * `://` also matches from 1 and 2, one unit further on; anything else fails and
   * resets `lastIndex` to 0.
   */
  lemma TestByShape(t: String, last: nat)
    requires IsSeparator(t) || IsContent(t)
    ensures Test(t, last).0 <==> IsSeparator(t) && (last == 0 || (t == SchemeSeparator && last <= 2))
    ensures Test(t, last).1
      == if !Test(t, last).0 then 0 else if last == 0 then |t| else last + 1
  {
    TestOnParts(t, last);
    if IsSeparator(t) && t != SchemeSeparator {
      assert |t| == 1;
    }
  }

  // ----- the encoder's behaviour on the parts of a URL -----

  /** Every content part goes through the encoder, whatever `lastIndex` is. */
  lemma ContentAlwaysEncoded(parts: seq<String>, last: nat, how: EncodingMethod, m: CustomMap, i: nat)
    requires i < |parts| && IsContent(parts[i])
    ensures !KeptVerbatim(parts, last, i)
    ensures EncodeParts(parts, last, how, m)[i] == Encode(how, parts[i], m)
  {
    TestOnParts(parts[i], LastIndexBefore(parts, last, i));
    EncodePartsAt(parts, last, how, m, i);
  }

  /** A separator that is the first part, or follows a content part, is emitted verbatim. */
  lemma SeparatorAfterContentKept(parts: seq<String>, how: EncodingMethod, m: CustomMap, i: nat)
    requires i < |parts| && IsSeparator(parts[i])
    requires i == 0 || IsContent(parts[i - 1])
    ensures KeptVerbatim(parts, 0, i)
    ensures EncodeParts(parts, 0, how, m)[i] == parts[i]
  {
    TestAfterContent(parts, i);
    EncodePartsAt(parts, 0, how, m, i);
  }

  /** The test of a separator that is the first part, or follows content, runs from `lastIndex` 0. */
  lemma TestAfterContent(parts: seq<String>, i: nat)
    requires i < |parts| && IsSeparator(parts[i])
    requires i == 0 || IsContent(parts[i - 1])
    ensures LastIndexBefore(parts, 0, i) == 0
    ensures KeptVerbatim(parts, 0, i)
  {
    if i > 0 {
      LastIndexStep(parts, 0, i - 1);
      TestOnParts(parts[i - 1], LastIndexBefore(parts, 0, i - 1));
    }
    TestOnParts(parts[i], 0);
  }

  /**
   * Two one-unit separators side by side alternate: the second is emitted verbatim
   * exactly when the first was not, because a verbatim separator leaves `lastIndex`
   * at 1, where a one-unit part has no match.
   */
  lemma SingleSeparatorsAlternate(parts: seq<String>, last: nat, how: EncodingMethod, m: CustomMap, i: nat)
    requires 0 < i < |parts|
    requires IsSeparator(parts[i - 1]) && |parts[i - 1]| == 1
    requires IsSeparator(parts[i]) && |parts[i]| == 1
    ensures KeptVerbatim(parts, last, i) <==> !KeptVerbatim(parts, last, i - 1)
    ensures EncodeParts(parts, last, how, m)[i]
      == if KeptVerbatim(parts, last, i - 1) then Encode(how, parts[i], m) else parts[i]
  {
    var before := LastIndexBefore(parts, last, i - 1);
    LastIndexStep(parts, last, i - 1);
    TestByShape(parts[i - 1], before);
    TestByShape(parts[i], LastIndexBefore(parts, last, i));
    EncodePartsAt(parts, last, how, m, i);
  }

  /** The empty URL encodes to the empty string under every method. */
  lemma EmptyUrl(how: EncodingMethod, m: CustomMap)
    ensures SmartEncoded([], how, m) == []
  {
    EmptyHasNoParts();
  }

  /** A URL without any separator is one content part, encoded as a whole. */
  lemma NoSeparatorEncodedWhole(url: String, how: EncodingMethod, m: CustomMap)
    requires forall k | 0 <= k < |url| :: MatchLength(url, k) == 0
    ensures SmartEncoded(url, how, m) == Encode(how, url, m)
  {
    if url == [] {
      EmptyUrl(how, m);
    } else {
      ContentIsOnePart(url);
      TestOnParts(url, 0);
      assert EncodeParts([url], 0, how, m) == [Encode(how, url, m)];
    }
  }

  // ----- what the comment at the test promises: every separator verbatim -----

  /** `parts.map(part => /(...)/.test(part) ? part : encoder(part))` with a test that keeps no state. */
  function EncodePartsIntended(parts: seq<String>, how: EncodingMethod, m: CustomMap): (r: seq<String>)
    ensures |r| == |parts|
  {
    if parts == [] then []
    else [if Test(parts[0], 0).0 then parts[0] else Encode(how, parts[0], m)] + EncodePartsIntended(parts[1..], how, m)
  }

  /** The encoder as its comment describes it: known separators as they are, everything else encoded. */
  function SmartEncodedIntended(url: String, how: EncodingMethod, m: CustomMap): String {
    Concat(EncodePartsIntended(Parts(url), how, m))
  }

  /** With a stateless test, every separator part is verbatim and every content part encoded. */
  lemma {:induction false} IntendedKeepsEverySeparator(parts: seq<String>, how: EncodingMethod, m: CustomMap, i: nat)
    requires WellSplit(parts) && i < |parts|
    ensures EncodePartsIntended(parts, how, m)[i]
      == if IsSeparator(parts[i]) then parts[i] else Encode(how, parts[i], m)
    decreases i
  {
    if i == 0 {
      TestByShape(parts[0], 0);
    } else {
      WellSplitTail(parts);
      IntendedKeepsEverySeparator(parts[1..], how, m, i - 1);
      assert parts[1..][i - 1] == parts[i];
    }
  }

  lemma WellSplitTail(parts: seq<String>)
    requires WellSplit(parts) && parts != []
    ensures WellSplit(parts[1..])
  {
    var t := parts[1..];
    forall i | 0 <= i < |t| - 1 ensures NotTwoContents(t, i) {
      assert NotTwoContents(parts, i + 1);
    }
    forall i | 0 <= i < |t| ensures IsSeparator(t[i]) || IsContent(t[i]) {
      assert t[i] == parts[i + 1];
    }
  }

  /** No two separator parts stand side by side. */
  predicate NoAdjacentSeparators(parts: seq<String>) {
    forall i | 0 <= i < |parts| - 1 :: NotTwoSeparators(parts, i)
  }

  predicate NotTwoSeparators(parts: seq<String>, i: nat)
    requires i + 1 < |parts|
  {
    !(IsSeparator(parts[i]) && IsSeparator(parts[i + 1]))
  }

  /**
   * When no two separators are adjacent, the stateful test does what was meant:
   * the content part after a verbatim separator resets `lastIndex` to 0.
   */
  lemma {:induction false} AsWrittenIsIntendedWithoutAdjacentSeparators(
    parts: seq<String>, last: nat, how: EncodingMethod, m: CustomMap)
    requires WellSplit(parts) && NoAdjacentSeparators(parts)
    requires last == 0 || parts == [] || IsContent(parts[0])
    ensures EncodeParts(parts, last, how, m) == EncodePartsIntended(parts, how, m)
    decreases |parts|
  {
    if parts != [] {
      var t := parts[0];
      TestByShape(t, last);
      TestByShape(t, 0);
      if |parts| > 1 {
        assert NotTwoSeparators(parts, 0);
        WellSplitTail(parts);
        assert NoAdjacentSeparators(parts[1..]) by {
          forall i | 0 <= i < |parts[1..]| - 1 ensures NotTwoSeparators(parts[1..], i) {
            assert NotTwoSeparators(parts, i + 1);
          }
        }
        assert IsSeparator(parts[1]) || IsContent(parts[1]);
        AsWrittenIsIntendedWithoutAdjacentSeparators(parts[1..], Test(t, last).1, how, m);
      }
    }
  }

  /**
   * `encodeUrlSmart('/?', 'hex')` is `/&#x3f;`, not `/?`: the `?` after the
   * verbatim `/` is tested from `lastIndex` 1 and encoded.
   */
  lemma SlashQuestionMarkUnderHex()
    ensures SmartEncoded([0x2F, 0x3F], Hex, map[]) == [0x2F, 0x26, 0x23, 0x78, 0x33, 0x66, 0x3B]  // /&#x3f;
    ensures SmartEncodedIntended([0x2F, 0x3F], Hex, map[]) == [0x2F, 0x3F]                        // /?
  {
    var slash, question: String := [0x2F], [0x3F];
    SlashQuestionParts();
    assert Test(slash, 0) == (true, 1);
    TestOnParts(question, 1);
    TestOnParts(question, 0);
    HexOfQuestionMark();
    assert EncodeParts([slash, question], 0, Hex, map[]) == [slash, [0x26, 0x23, 0x78, 0x33, 0x66, 0x3B]];
    assert EncodePartsIntended([slash, question], Hex, map[]) == [slash, question];
  }

  /** `'/?'.split(separators).filter(part => part)` is `['/', '?']`. */
  lemma SlashQuestionParts()
    ensures Parts([0x2F, 0x3F]) == [[0x2F], [0x3F]]
  {
    var url: String := [0x2F, 0x3F];
    assert MatchLength(url, 0) == 1 && MatchLength(url, 1) == 1;
    assert url[2..] == [] && url[1..1] == [] && url[1..2] == [0x3F] && url[0..0] == [] && url[0..1] == [0x2F];
    assert SplitFrom(url, 2, 2) == [[]];
    assert SplitFrom(url, 1, 1) == [[], [0x3F]] + [[]];
    assert SplitFrom(url, 0, 0) == [[], [0x2F]] + ([[], [0x3F]] + [[]]);
    NonEmptyOne([]);
    NonEmptyStep([], [0x3F], [[]]);
    NonEmptyStep([], [0x2F], [[], [0x3F]] + [[]]);
  }

  /** `encodeHex('?')` is `&#x3f;`. */
  lemma HexOfQuestionMark()
    ensures Encode(Hex, [0x3F], map[]) == [0x26, 0x23, 0x78, 0x33, 0x66, 0x3B]
  {
    var q: String := [0x3F];
    CharsOfChar(q);
    assert Digits(0x3F, 16) == [0x33, 0x66];
  }
}
