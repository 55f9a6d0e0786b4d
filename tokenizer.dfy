/**
 * The separator grammar of the URL encoder: the regular expression
 * `/(\:\/\/|\.|\/|\?|\&|\=|\#)/g`, the split of a URL by it (separators kept,
 * empty pieces dropped) and its `test` method, whose `lastIndex` the global flag
 * carries from one call to the next.
 */
module Tokenizer {
  import opened Utf16
  import opened Wrappers

  /** `://`, the one separator longer than a code unit. */
  const SchemeSeparator: String := [0x3A, 0x2F, 0x2F]

  /** `.` `/` `?` `&` `=` `#`. */
  predicate IsSingleSeparator(u: int) {
    u == 0x2E || u == 0x2F || u == 0x3F || u == 0x26 || u == 0x3D || u == 0x23
  }

  /**
   * The length of the match the regular expression finds at position p of s, 0 if
   * none: its alternatives are tried in order, `://` first.
   */
  function MatchLength(s: String, p: nat): (n: nat)
    ensures n == 0 || n == 1 || n == 3
    ensures p + n <= |s| || n == 0
  {
    if p + 3 <= |s| && s[p] == 0x3A && s[p + 1] == 0x2F && s[p + 2] == 0x2F then 3
    else if p < |s| && IsSingleSeparator(s[p]) then 1
    else 0
  }

  /** A part that is exactly one separator. */
  predicate IsSeparator(t: String) {
    t == SchemeSeparator || (|t| == 1 && IsSingleSeparator(t[0]))
  }

  /** A non-empty part in which the regular expression matches nowhere. */
  predicate IsContent(t: String) {
    t != [] && forall k | 0 <= k < |t| :: MatchLength(t, k) == 0
  }

  /**
   * `s.split(separators)` (ECMA-262, RegExp.prototype[@@split]): p is where the
   * pending piece starts, q the position where a match is tried next. A match at q
   * ends the pending piece and is itself kept as a piece (the capturing group).
   */
  function SplitFrom(s: String, p: nat, q: nat): seq<String>
    requires p <= q <= |s|
    decreases |s| - q
  {
    if q == |s| then [s[p..]]
    else
      var n := MatchLength(s, q);
      if n > 0 then [s[p..q], s[q..q + n]] + SplitFrom(s, q + n, q + n)
      else SplitFrom(s, p, q + 1)
  }

  /** `.filter(part => part)`: drops every empty piece, wherever it stands. */
  function NonEmpty(parts: seq<String>): (r: seq<String>)
    ensures Concat(r) == Concat(parts)
    ensures forall i | 0 <= i < |r| :: r[i] != []
    ensures forall x :: x in r <==> x in parts && x != []
  {
    if parts == [] then []
    else if parts[0] == [] then NonEmpty(parts[1..])
    else [parts[0]] + NonEmpty(parts[1..])
  }

  /** The filter keeps the order of the pieces and never merges them: it works on each half separately. */
  lemma {:induction false} NonEmptyAppend(a: seq<String>, b: seq<String>)
    ensures NonEmpty(a + b) == NonEmpty(a) + NonEmpty(b)
  {
    if a == [] {
      assert a + b == b;
    } else {
      assert (a + b)[1..] == a[1..] + b;
      NonEmptyAppend(a[1..], b);
    }
  }

  /** A single piece is kept exactly when it is not empty. */
  lemma NonEmptyOne(x: String)
    ensures NonEmpty([x]) == if x == [] then [] else [x]
  {
    assert [x][1..] == [];
  }

  /**
   * What the tokenizer promises: no part is empty, each part is a separator or
   * content, and no two content parts are adjacent (content runs are maximal).
   */
  predicate WellSplit(parts: seq<String>) {
    && (forall i | 0 <= i < |parts| :: IsSeparator(parts[i]) || IsContent(parts[i]))
    && (forall i | 0 <= i < |parts| - 1 :: NotTwoContents(parts, i))
  }

  predicate NotTwoContents(parts: seq<String>, i: nat)
    requires i + 1 < |parts|
  {
    !(IsContent(parts[i]) && IsContent(parts[i + 1]))
  }

  /** The parts of a URL: split by the separators, empty pieces dropped. */
  function Parts(s: String): (parts: seq<String>)
    ensures Concat(parts) == s
  {
    SplitFromConcat(s, 0, 0);
    NonEmpty(SplitFrom(s, 0, 0))
  }

  /** Every part is a separator or content, and no two content parts are adjacent. */
  lemma PartsWellSplit(s: String)
    ensures WellSplit(Parts(s))
  {
    SplitFromWellSplit(s, 0, 0);
  }

  lemma SliceHasNoMatch(s: String, p: nat, q: nat)
    requires p <= q <= |s|
    requires forall k | p <= k < q :: MatchLength(s, k) == 0
    ensures forall k | 0 <= k < q - p :: MatchLength(s[p..q], k) == 0
  {
    var t := s[p..q];
    forall k | 0 <= k < q - p ensures MatchLength(t, k) == 0 {
      assert t[k] == s[p + k];
      if k + 3 <= |t| {
        assert t[k + 1] == s[p + k + 1] && t[k + 2] == s[p + k + 2];
      }
      assert MatchLength(s, p + k) == 0;
    }
  }

  lemma MatchIsSeparator(s: String, q: nat)
    requires q < |s| && MatchLength(s, q) > 0
    ensures IsSeparator(s[q..q + MatchLength(s, q)])
  {
    if MatchLength(s, q) == 3 {
      assert s[q..q + 3] == SchemeSeparator;
    }
  }

  /** Putting a part in front keeps the shape, unless it puts two content parts side by side. */
  lemma ConsWellSplit(x: String, ps: seq<String>)
    requires WellSplit(ps)
    requires IsSeparator(x) || IsContent(x)
    requires ps != [] && IsContent(x) ==> !IsContent(ps[0])
    ensures WellSplit([x] + ps)
  {
    var r := [x] + ps;
    forall i | 0 <= i < |r| - 1 ensures NotTwoContents(r, i) {
      if i > 0 { assert NotTwoContents(ps, i - 1); }
    }
    forall i | 0 <= i < |r| ensures IsSeparator(r[i]) || IsContent(r[i]) {
      if i > 0 { assert r[i] == ps[i - 1]; }
    }
  }

  lemma NonEmptyStep(piece: String, sep: String, rest: seq<String>)
    requires sep != []
    ensures NonEmpty([piece, sep] + rest) == (if piece == [] then [] else [piece]) + ([sep] + NonEmpty(rest))
  {
    assert ([piece, sep] + rest)[1..] == [sep] + rest;
    assert ([sep] + rest)[1..] == rest;
  }

  /** The split loses nothing: its pieces, separators included, join back to the rest of the string. */
  lemma {:induction false} SplitFromConcat(s: String, p: nat, q: nat)
    requires p <= q <= |s|
    ensures Concat(SplitFrom(s, p, q)) == s[p..]
    decreases |s| - q
  {
    if q == |s| {
      assert SplitFrom(s, p, q) == [s[p..]];
      assert Concat([s[p..]]) == s[p..] + [];
    } else if MatchLength(s, q) > 0 {
      var n := MatchLength(s, q);
      SplitFromConcat(s, q + n, q + n);
      SplitFromConcatAtMatch(s, p, q);
    } else {
      SplitFromConcat(s, p, q + 1);
      assert SplitFrom(s, p, q) == SplitFrom(s, p, q + 1);
    }
  }

  /** The step of SplitFromConcat where a separator matches at q. */
  lemma SplitFromConcatAtMatch(s: String, p: nat, q: nat)
    requires p <= q < |s| && MatchLength(s, q) > 0
    requires Concat(SplitFrom(s, q + MatchLength(s, q), q + MatchLength(s, q))) == s[q + MatchLength(s, q)..]
    ensures Concat(SplitFrom(s, p, q)) == s[p..]
  {
    var n := MatchLength(s, q);
    SplitFromUnfold(s, p, q);
    ConcatTwo(s[p..q], s[q..q + n], SplitFrom(s, q + n, q + n));
    SliceThree(s, p, q, q + n);
  }

  /** A match at q closes the pending piece and is kept as a piece of its own. */
  lemma SplitFromUnfold(s: String, p: nat, q: nat)
    requires p <= q < |s| && MatchLength(s, q) > 0
    ensures SplitFrom(s, p, q)
      == [s[p..q], s[q..q + MatchLength(s, q)]] + SplitFrom(s, q + MatchLength(s, q), q + MatchLength(s, q))
  {
  }

  lemma ConcatTwo(a: String, b: String, rest: seq<String>)
    ensures Concat([a, b] + rest) == a + (b + Concat(rest))
  {
    assert ([a, b] + rest)[1..] == [b] + rest;
    assert ([b] + rest)[1..] == rest;
  }

  /** Without a match before q, the pieces of the split have the shape the tokenizer promises. */
  lemma {:induction false} SplitFromWellSplit(s: String, p: nat, q: nat)
    requires p <= q <= |s|
    requires forall k | p <= k < q :: MatchLength(s, k) == 0
    ensures WellSplit(NonEmpty(SplitFrom(s, p, q)))
    decreases |s| - q
  {
    if q == |s| {
      SplitFromEnd(s, p);
    } else if MatchLength(s, q) > 0 {
      var n := MatchLength(s, q);
      SplitFromWellSplit(s, q + n, q + n);
      SplitFromMatch(s, p, q);
    } else {
      SplitFromWellSplit(s, p, q + 1);
      assert SplitFrom(s, p, q) == SplitFrom(s, p, q + 1);
    }
  }

  /** The last step of SplitFromWellSplit: the rest of the string is one piece. */
  lemma SplitFromEnd(s: String, p: nat)
    requires p <= |s|
    requires forall k | p <= k < |s| :: MatchLength(s, k) == 0
    ensures WellSplit(NonEmpty(SplitFrom(s, p, |s|)))
  {
    SliceHasNoMatch(s, p, |s|);
    assert s[p..] == s[p..|s|];
    assert SplitFrom(s, p, |s|) == [s[p..]];
    if s[p..] != [] {
      assert IsContent(s[p..]);
      assert NonEmpty([s[p..]]) == [s[p..]];
    }
  }

  /** The step of SplitFromWellSplit where a separator matches at q. */
  lemma SplitFromMatch(s: String, p: nat, q: nat)
    requires p <= q < |s| && MatchLength(s, q) > 0
    requires forall k | p <= k < q :: MatchLength(s, k) == 0
    requires WellSplit(NonEmpty(SplitFrom(s, q + MatchLength(s, q), q + MatchLength(s, q))))
    ensures WellSplit(NonEmpty(SplitFrom(s, p, q)))
  {
    var n := MatchLength(s, q);
    var piece, sep := s[p..q], s[q..q + n];
    var tail := NonEmpty(SplitFrom(s, q + n, q + n));
    SplitFromAtMatch(s, p, q);
    MatchIsSeparator(s, q);
    SliceHasNoMatch(s, p, q);
    PrependWellSplit(piece, sep, tail);
  }

  lemma SplitFromAtMatch(s: String, p: nat, q: nat)
    requires p <= q < |s| && MatchLength(s, q) > 0
    ensures NonEmpty(SplitFrom(s, p, q))
      == (if s[p..q] == [] then [] else [s[p..q]])
         + ([s[q..q + MatchLength(s, q)]] + NonEmpty(SplitFrom(s, q + MatchLength(s, q), q + MatchLength(s, q))))
  {
    var n := MatchLength(s, q);
    SplitFromUnfold(s, p, q);
    NonEmptyStep(s[p..q], s[q..q + n], SplitFrom(s, q + n, q + n));
  }

  lemma SliceThree(s: String, p: nat, q: nat, r: nat)
    requires p <= q <= r <= |s|
    ensures s[p..] == s[p..q] + (s[q..r] + s[r..])
  {
    assert s[p..] == s[p..q] + s[q..];
    assert s[q..] == s[q..r] + s[r..];
  }

  /** A piece without a match, then a separator, in front of well-split parts. */
  lemma PrependWellSplit(piece: String, sep: String, tail: seq<String>)
    requires IsSeparator(sep)
    requires forall k | 0 <= k < |piece| :: MatchLength(piece, k) == 0
    requires WellSplit(tail)
    ensures WellSplit((if piece == [] then [] else [piece]) + ([sep] + tail))
  {
    assert MatchLength(sep, 0) > 0;
    ConsWellSplit(sep, tail);
    if piece == [] {
      assert [] + ([sep] + tail) == [sep] + tail;
    } else {
      ConsWellSplit(piece, [sep] + tail);
    }
  }

  // ----- the parts stand where the regular expression cuts the string -----

  /**
   * Part t stands at offset o of s as the split cuts it: either it is the match the
   * regular expression finds at o, or it is non-empty and no match starts at any of
   * its positions of s.
   */
  predicate CutAt(s: String, o: nat, t: String)
    requires o + |t| <= |s|
  {
    && s[o..o + |t|] == t
    && ((0 < |t| && MatchLength(s, o) == |t|)
        || (t != [] && forall k | o <= k < o + |t| :: MatchLength(s, k) == 0))
  }

  /** The parts, laid end to end from offset o, are each cut at their place in s and reach its end. */
  predicate FollowsMatches(s: String, o: nat, parts: seq<String>)
    decreases |parts|
  {
    if parts == [] then o == |s|
    else o + |parts[0]| <= |s| && CutAt(s, o, parts[0]) && FollowsMatches(s, o + |parts[0]|, parts[1..])
  }

  lemma ConsFollows(s: String, o: nat, x: String, ps: seq<String>)
    requires o + |x| <= |s| && CutAt(s, o, x)
    requires FollowsMatches(s, o + |x|, ps)
    ensures FollowsMatches(s, o, [x] + ps)
  {
    assert ([x] + ps)[1..] == ps;
  }

  /**
   * No part boundary falls inside a match: every separator part is the match found
   * at its offset (so `://` is never cut into `:` `/` `/`), and no match starts
   * inside a content part.
   */
  lemma PartsFollowMatches(s: String)
    ensures FollowsMatches(s, 0, Parts(s))
  {
    SplitFromFollowsMatches(s, 0, 0);
  }

  /** Without a match before q, the non-empty pieces of the split from p follow the matches of s. */
  lemma {:induction false} SplitFromFollowsMatches(s: String, p: nat, q: nat)
    requires p <= q <= |s|
    requires forall k | p <= k < q :: MatchLength(s, k) == 0
    ensures FollowsMatches(s, p, NonEmpty(SplitFrom(s, p, q)))
    decreases |s| - q
  {
    if q == |s| {
      SplitFromFollowsEnd(s, p);
    } else if MatchLength(s, q) > 0 {
      var n := MatchLength(s, q);
      SplitFromFollowsMatches(s, q + n, q + n);
      SplitFromFollowsAtMatch(s, p, q);
    } else {
      SplitFromFollowsMatches(s, p, q + 1);
      assert SplitFrom(s, p, q) == SplitFrom(s, p, q + 1);
    }
  }

  /** The last step of SplitFromFollowsMatches: the rest of the string is one piece. */
  lemma SplitFromFollowsEnd(s: String, p: nat)
    requires p <= |s|
    requires forall k | p <= k < |s| :: MatchLength(s, k) == 0
    ensures FollowsMatches(s, p, NonEmpty(SplitFrom(s, p, |s|)))
  {
    assert SplitFrom(s, p, |s|) == [s[p..]];
    NonEmptyOne(s[p..]);
    if p < |s| {
      CutAtPiece(s, p, |s|);
      assert s[p..|s|] == s[p..];
      ConsFollows(s, p, s[p..], []);
      assert [s[p..]] + [] == [s[p..]];
    }
  }

  /** The step of SplitFromFollowsMatches where a separator matches at q. */
  lemma SplitFromFollowsAtMatch(s: String, p: nat, q: nat)
    requires p <= q < |s| && MatchLength(s, q) > 0
    requires forall k | p <= k < q :: MatchLength(s, k) == 0
    requires FollowsMatches(s, q + MatchLength(s, q), NonEmpty(SplitFrom(s, q + MatchLength(s, q), q + MatchLength(s, q))))
    ensures FollowsMatches(s, p, NonEmpty(SplitFrom(s, p, q)))
  {
    var n := MatchLength(s, q);
    SplitFromAtMatch(s, p, q);
    PieceAndMatchFollow(s, p, q, NonEmpty(SplitFrom(s, q + n, q + n)));
  }

  /** The pending piece (when not empty) and the match at q, in front of parts that follow the matches after it. */
  lemma PieceAndMatchFollow(s: String, p: nat, q: nat, tail: seq<String>)
    requires p <= q < |s| && MatchLength(s, q) > 0
    requires forall k | p <= k < q :: MatchLength(s, k) == 0
    requires FollowsMatches(s, q + MatchLength(s, q), tail)
    ensures FollowsMatches(s, p, (if s[p..q] == [] then [] else [s[p..q]]) + ([s[q..q + MatchLength(s, q)]] + tail))
  {
    var n := MatchLength(s, q);
    var piece, sep := s[p..q], s[q..q + n];
    CutAtMatch(s, q);
    ConsFollows(s, q, sep, tail);
    if p < q {
      CutAtPiece(s, p, q);
      ConsFollows(s, p, piece, [sep] + tail);
    } else {
      assert [] + ([sep] + tail) == [sep] + tail;
    }
  }

  /** The match found at q is cut as one part. */
  lemma CutAtMatch(s: String, q: nat)
    requires q < |s| && MatchLength(s, q) > 0
    ensures CutAt(s, q, s[q..q + MatchLength(s, q)])
  {
  }

  /** A non-empty stretch without a match is cut as one part. */
  lemma CutAtPiece(s: String, p: nat, q: nat)
    requires p < q <= |s|
    requires forall k | p <= k < q :: MatchLength(s, k) == 0
    ensures CutAt(s, p, s[p..q])
  {
  }

  /** Dropping the first part keeps the shape of the rest. */
  lemma WellSplitTail(parts: seq<String>)
    requires parts != [] && WellSplit(parts)
    ensures WellSplit(parts[1..])
  {
    var t := parts[1..];
    forall i | 0 <= i < |t| - 1 ensures NotTwoContents(t, i) {
      assert NotTwoContents(parts, i + 1);
    }
    forall i | 0 <= i < |t| ensures IsSeparator(t[i]) || IsContent(t[i]) {
      assert t[i] == parts[i + 1];
    }
  }

  /** A non-empty slice of s in which no match of s starts is content on its own. */
  lemma MatchFreeIsContent(s: String, o: nat, t: String)
    requires o + |t| <= |s| && s[o..o + |t|] == t
    ensures (t != [] && forall k | o <= k < o + |t| :: MatchLength(s, k) == 0) ==> IsContent(t)
  {
    if t != [] && forall k | o <= k < o + |t| :: MatchLength(s, k) == 0 {
      SliceHasNoMatch(s, o, o + |t|);
    }
  }

  /** A content part that follows the matches ends at the end of s or where a match starts. */
  lemma ContentEndsAtMatch(s: String, o: nat, parts: seq<String>)
    requires WellSplit(parts) && FollowsMatches(s, o, parts)
    requires parts != [] && MatchLength(s, o) == 0
    ensures o + |parts[0]| == |s| || MatchLength(s, o + |parts[0]|) > 0
  {
    var x := parts[0];
    var e := o + |x|;
    MatchFreeIsContent(s, o, x);
    if parts[1..] != [] {
      var y := parts[1];
      assert y == parts[1..][0];
      MatchFreeIsContent(s, e, y);
      assert NotTwoContents(parts, 0);
    }
  }

  /**
   * Two lists of parts with the tokenizer's shape that both follow the matches of s
   * from o are the same: the cut is determined by the regular expression.
   */
  lemma {:induction false} FollowsMatchesUnique(s: String, o: nat, ps: seq<String>, qs: seq<String>)
    requires WellSplit(ps) && WellSplit(qs)
    requires FollowsMatches(s, o, ps) && FollowsMatches(s, o, qs)
    ensures ps == qs
    decreases |ps|
  {
    if ps != [] && qs != [] {
      var x, y := ps[0], qs[0];
      if MatchLength(s, o) == 0 {
        ContentEndsAtMatch(s, o, ps);
        ContentEndsAtMatch(s, o, qs);
      }
      assert |x| == |y|;
      assert x == s[o..o + |x|] == y;
      WellSplitTail(ps);
      WellSplitTail(qs);
      FollowsMatchesUnique(s, o + |x|, ps[1..], qs[1..]);
      assert ps == [x] + ps[1..] && qs == [y] + qs[1..];
    }
  }

  /** Any list of parts with the tokenizer's shape that follows the matches of s is `Parts(s)`. */
  lemma PartsUnique(s: String, parts: seq<String>)
    requires WellSplit(parts) && FollowsMatches(s, 0, parts)
    ensures parts == Parts(s)
  {
    PartsWellSplit(s);
    PartsFollowMatches(s);
    FollowsMatchesUnique(s, 0, parts, Parts(s));
  }

  /** `://` on its own is one part, not `:` `/` `/`. */
  lemma SchemeSeparatorIsOnePart()
    ensures Parts(SchemeSeparator) == [SchemeSeparator]
  {
    var s := SchemeSeparator;
    assert MatchLength(s, 0) == 3;
    assert s[0..3] == s && s[3..] == [];
    assert SplitFrom(s, 0, 0) == [[], s] + SplitFrom(s, 3, 3);
    assert SplitFrom(s, 3, 3) == [[]];
    NonEmptyStep([], s, [[]]);
    NonEmptyOne([]);
  }

  /** A string in which the regular expression matches nowhere is one content part. */
  lemma ContentIsOnePart(s: String)
    requires IsContent(s)
    ensures Parts(s) == [s]
  {
    NoMatchSplit(s, 0);
  }

  lemma {:induction false} NoMatchSplit(s: String, q: nat)
    requires q <= |s|
    requires forall k | 0 <= k < |s| :: MatchLength(s, k) == 0
    ensures SplitFrom(s, 0, q) == [s]
    decreases |s| - q
  {
    if q < |s| {
      NoMatchSplit(s, q + 1);
    }
  }

  /** The empty string has no parts. */
  lemma EmptyHasNoParts()
    ensures Parts([]) == []
  {
  }

  // ----- `separators.test(part)` with the global flag -----

  /** The first match at or after position i: its start and its length. */
  function FirstMatchFrom(s: String, i: nat): (r: Option<(nat, nat)>)
    ensures r.Some? ==> i <= r.value.0 < |s| && r.value.1 == MatchLength(s, r.value.0) > 0
    decreases |s| - i
  {
    if i >= |s| then None
    else if MatchLength(s, i) > 0 then Some((i, MatchLength(s, i)))
    else FirstMatchFrom(s, i + 1)
  }

  /**
   * `separators.test(s)` when `separators.lastIndex` is `last` (ECMA-262,
   * RegExpBuiltinExec): whether there is a match at or after `last`, and the new
   * `lastIndex`, which is the end of that match, or 0 when there is none.
   */
  function Test(s: String, last: nat): (r: (bool, nat))
    ensures r.0 ==> 0 < r.1 <= |s|
    ensures !r.0 ==> r.1 == 0
  {
    if last > |s| then (false, 0)
    else match FirstMatchFrom(s, last)
      case Some((p, n)) => (true, p + n)
      case None => (false, 0)
  }

  lemma {:induction false} NoMatchFrom(s: String, i: nat)
    requires forall k | 0 <= k < |s| :: MatchLength(s, k) == 0
    ensures FirstMatchFrom(s, i) == None
    decreases |s| - i
  {
    if i < |s| {
      NoMatchFrom(s, i + 1);
    }
  }

  /**
   * The test on the parts the tokenizer produces: content never matches, whatever
   * `lastIndex` is; a separator always matches from 0, then `lastIndex` is its
   * length; a one-unit separator never matches from a `lastIndex` of 1 or more;
   * `://` matches from 1 and 2 (at its inner `/`) and fails from 3.
   */
  lemma TestOnParts(t: String, last: nat)
    ensures IsContent(t) ==> Test(t, last) == (false, 0)
    ensures IsSeparator(t) && last == 0 ==> Test(t, last) == (true, |t|)
    ensures IsSeparator(t) && |t| == 1 && last >= 1 ==> Test(t, last) == (false, 0)
    ensures t == SchemeSeparator && 1 <= last <= 2 ==> Test(t, last) == (true, last + 1)
    ensures t == SchemeSeparator && last >= 3 ==> Test(t, last) == (false, 0)
  {
    if IsContent(t) {
      NoMatchFrom(t, last);
    }
    if t == SchemeSeparator && last == 1 {
      assert MatchLength(t, 1) == 1;
    }
    if t == SchemeSeparator && last == 2 {
      assert MatchLength(t, 2) == 1;
    }
  }
}
