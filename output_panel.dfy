/**
 * The text the output panel shows, copies and exports: each result as a bare URL,
 * an HTML anchor or a Markdown link, one per line, and the CSV file of all
 * results. Nothing inside is escaped except the double quotes of a CSV field.
 * The download, the clipboard and the DOM are not modelled.
 */
module OutputPanel {
  import opened Utf16
  import opened Wrappers
  import opened LinkEncoder

  datatype OutputFormat = Url | Html | Markdown

  const Ellipsis: String := [0x2E, 0x2E, 0x2E]                                        // ...
  const AnchorOpen: String := [0x3C, 0x61, 0x20, 0x68, 0x72, 0x65, 0x66, 0x3D, 0x22]  // <a href="
  const AnchorMid: String := [0x22, 0x3E]                                             // ">
  const AnchorClose: String := [0x3C, 0x2F, 0x61, 0x3E]                               // </a>
  const LinkMid: String := [0x5D, 0x28]                                               // ](

  /**
   * The label of a link: the original URL when it has at most 30 code units, and
   * otherwise its first 27 followed by `...`.
   */
  function Label(original: String): (shown: String)
    ensures |shown| <= 30
    ensures shown == original <==> |original| <= 30
    ensures |original| > 30 ==> |shown| == 30 && shown[..27] == original[..27] && shown[27..] == Ellipsis
  {
    if |original| > 30 then original[..27] + Ellipsis else original
  }

  /** One result in the chosen format. */
  function FormatLine(r: EncodingResult, format: OutputFormat): String {
    match format
    case Html => AnchorOpen + r.encoded + AnchorMid + Label(r.original) + AnchorClose
    case Markdown => [0x5B] + Label(r.original) + LinkMid + r.encoded + [0x29]
    case Url => r.encoded
  }

  function FormattedLines(results: seq<EncodingResult>, format: OutputFormat): (lines: seq<String>)
    ensures |lines| == |results|
    ensures forall i | 0 <= i < |results| :: lines[i] == FormatLine(results[i], format)
  {
    if results == [] then [] else [FormatLine(results[0], format)] + FormattedLines(results[1..], format)
  }

  /** `formatResults`: the formatted results joined by `\n`; no results give the empty text. */
  function FormatResults(results: seq<EncodingResult>, format: OutputFormat): (text: String)
    ensures results == [] ==> text == []
  {
    if |results| == 0 then [] else JoinWith(FormattedLines(results, format), 0x0A)
  }

  /**
   * In the `url` format, splitting the text at line feeds gives the encoded URLs back,
   * in result order, when none of them holds a line feed.
   */
  lemma UrlFormatLines(results: seq<EncodingResult>)
    requires results != []
    requires forall i | 0 <= i < |results| :: 0x0A !in results[i].encoded
    ensures |SplitOn(FormatResults(results, Url), 0x0A)| == |results|
    ensures forall i | 0 <= i < |results| :: SplitOn(FormatResults(results, Url), 0x0A)[i] == results[i].encoded
  {
    SplitJoin(FormattedLines(results, Url), 0x0A);
  }

  // ----- reading the links back -----

  /** The longest prefix of s without the code unit u. */
  function UpTo(s: String, u: CodeUnit): (p: String)
    ensures |p| <= |s| && p == s[..|p|]
    ensures u !in p
    ensures |p| < |s| ==> s[|p|] == u
  {
    if s == [] || s[0] == u then [] else [s[0]] + UpTo(s[1..], u)
  }

  lemma {:induction false} UpToStops(a: String, u: CodeUnit, b: String)
    requires u !in a
    ensures UpTo(a + [u] + b, u) == a
  {
    if a != [] {
      assert (a + [u] + b)[1..] == a[1..] + [u] + b;
      UpToStops(a[1..], u, b);
    }
  }

  /** The href and the text of `<a href="…">…</a>`, the href ending at the first `"`. */
  function ParseAnchor(line: String): Option<(String, String)> {
    if |line| < |AnchorOpen| || line[..|AnchorOpen|] != AnchorOpen then None
    else
      var rest := line[|AnchorOpen|..];
      var href := UpTo(rest, 0x22);
      var after := rest[|href|..];
      if |after| < |AnchorMid| + |AnchorClose| || after[..|AnchorMid|] != AnchorMid
         || after[|after| - |AnchorClose|..] != AnchorClose then None
      else Some((href, after[|AnchorMid|..|after| - |AnchorClose|]))
  }

  /** The text and the target of `[…](…)`, the text ending at the first `]`. */
  function ParseLink(line: String): Option<(String, String)> {
    if line == [] || line[0] != 0x5B then None
    else
      var rest := line[1..];
      var text := UpTo(rest, 0x5D);
      var after := rest[|text|..];
      if |after| < |LinkMid| + 1 || after[..|LinkMid|] != LinkMid || after[|after| - 1] != 0x29 then None
      else Some((text, after[|LinkMid|..|after| - 1]))
  }

  /**
   * The `html` format puts the encoded URL in the href unescaped: it reads back
   * exactly when it holds no `"`, and the link text is the label.
   */
  lemma AnchorRoundTrip(r: EncodingResult)
    requires 0x22 !in r.encoded
    ensures ParseAnchor(FormatLine(r, Html)) == Some((r.encoded, Label(r.original)))
  {
    ParseAnchorOf(r.encoded, Label(r.original));
  }

  lemma ParseAnchorOf(href: String, text: String)
    requires 0x22 !in href
    ensures ParseAnchor(AnchorOpen + href + AnchorMid + text + AnchorClose) == Some((href, text))
  {
    var after := AnchorMid + text + AnchorClose;
    assert AnchorOpen + href + AnchorMid + text + AnchorClose == AnchorOpen + (href + after);
    PrefixAndRest(AnchorOpen, href + after);
    ReadUpTo(href, 0x22, after);
    Enclosed(AnchorMid, text, AnchorClose);
  }

  /** What `UpTo` reads from a text that stops at u, and what it leaves. */
  lemma ReadUpTo(a: String, u: CodeUnit, after: String)
    requires u !in a && after != [] && after[0] == u
    ensures UpTo(a + after, u) == a
    ensures (a + after)[|UpTo(a + after, u)|..] == after
  {
    assert a + after == a + [u] + after[1..];
    UpToStops(a, u, after[1..]);
    PrefixAndRest(a, after);
  }

  /** The three pieces of `open + inner + close`, sliced back out. */
  lemma Enclosed(open: String, inner: String, close: String)
    ensures var w := open + inner + close;
      && |w| >= |open| + |close|
      && w[..|open|] == open
      && w[|w| - |close|..] == close
      && w[|open|..|w| - |close|] == inner
  {
    var w := open + inner + close;
    assert w == open + (inner + close);
    PrefixAndRest(open, inner + close);
    PrefixAndRest(open + inner, close);
    PrefixAndRest(inner, close);
  }

  /**
   * The `markdown` format puts the label in the brackets unescaped: the link reads
   * back when the label holds no `]`, whatever the encoded URL holds.
   */
  lemma LinkRoundTrip(r: EncodingResult)
    requires 0x5D !in Label(r.original)
    ensures ParseLink(FormatLine(r, Markdown)) == Some((Label(r.original), r.encoded))
  {
    ParseLinkOf(Label(r.original), r.encoded);
  }

  lemma ParseLinkOf(text: String, target: String)
    requires 0x5D !in text
    ensures ParseLink([0x5B] + text + LinkMid + target + [0x29]) == Some((text, target))
  {
    var after := LinkMid + target + [0x29];
    assert [0x5B] + text + LinkMid + target + [0x29] == [0x5B] + (text + after);
    PrefixAndRest([0x5B], text + after);
    ReadUpTo(text, 0x5D, after);
    Enclosed(LinkMid, target, [0x29]);
  }

  // ----- the CSV export -----

  const CsvHeader: String := [0x4F, 0x72, 0x69, 0x67, 0x69, 0x6E, 0x61, 0x6C, 0x20, 0x55, 0x52, 0x4C, 0x2C,
                              0x45, 0x6E, 0x63, 0x6F, 0x64, 0x65, 0x64, 0x20, 0x55, 0x52, 0x4C, 0x0A]
                              // Original URL,Encoded URL\n

  /** `v.replace(/"/g, '""')`. */
  function DoubleQuotes(v: String): (r: String)
    ensures |r| >= |v|
  {
    if v == [] then []
    else (if v[0] == 0x22 then [0x22, 0x22] else [v[0]]) + DoubleQuotes(v[1..])
  }

  /** A value without quotes goes into its field as it is. */
  lemma {:induction false} DoubleQuotesWithoutQuotes(v: String)
    requires 0x22 !in v
    ensures DoubleQuotes(v) == v
  {
    if v != [] {
      assert v[0] in v && v == [v[0]] + v[1..];
      DoubleQuotesWithoutQuotes(v[1..]);
    }
  }

  /** A quoted CSV field. */
  function CsvField(v: String): String {
    [0x22] + DoubleQuotes(v) + [0x22]
  }

  function CsvRow(r: EncodingResult): String {
    CsvField(r.original) + [0x2C] + CsvField(r.encoded)
  }

  function CsvRows(results: seq<EncodingResult>): (rows: seq<String>)
    ensures |rows| == |results|
    ensures forall i | 0 <= i < |results| :: rows[i] == CsvRow(results[i])
  {
    if results == [] then [] else [CsvRow(results[0])] + CsvRows(results[1..])
  }

  /** The exported file: the header, then one row per result joined by `\n`; nothing for no results. */
  function CsvText(results: seq<EncodingResult>): Option<String> {
    if |results| == 0 then None else Some(CsvHeader + JoinWith(CsvRows(results), 0x0A))
  }

  /**
   * The body of a quoted field, after its opening quote: `""` stands for `"`, and a
   * lone `"` closes the field. Gives the value and what follows the closing quote.
   */
  function ParseQuoted(s: String): (r: Option<(String, String)>)
    ensures r.Some? ==> |r.value.1| < |s|
    decreases |s|
  {
    if s == [] then None
    else if s[0] == 0x22 then
      if |s| >= 2 && s[1] == 0x22 then
        match ParseQuoted(s[2..])
        case Some((v, rest)) => Some(([0x22] + v, rest))
        case None => None
      else Some(([], s[1..]))
    else
      match ParseQuoted(s[1..])
      case Some((v, rest)) => Some(([s[0]] + v, rest))
      case None => None
  }

  function ParseField(s: String): (r: Option<(String, String)>)
    ensures r.Some? ==> |r.value.1| < |s|
  {
    if s != [] && s[0] == 0x22 then ParseQuoted(s[1..]) else None
  }

  /** Two fields separated by a comma, and what follows the second. */
  function ParseRow(s: String): (r: Option<(EncodingResult, String)>)
    ensures r.Some? ==> |r.value.1| < |s|
  {
    match ParseField(s)
    case None => None
    case Some((original, rest)) =>
      if rest == [] || rest[0] != 0x2C then None
      else match ParseField(rest[1..])
        case None => None
        case Some((encoded, rest')) => Some((EncodingResult(original, encoded), rest'))
  }

  /** Rows separated by `\n`, to the end of the text. */
  function ParseRows(s: String): Option<seq<EncodingResult>>
    decreases |s|
  {
    match ParseRow(s)
    case None => None
    case Some((r, rest)) =>
      if rest == [] then Some([r])
      else if rest[0] != 0x0A then None
      else match ParseRows(rest[1..])
        case None => None
        case Some(rs) => Some([r] + rs)
  }

  /** A CSV text as the export writes it: the header, then the rows. */
  function ParseCsv(text: String): Option<seq<EncodingResult>> {
    if |text| < |CsvHeader| || text[..|CsvHeader|] != CsvHeader then None
    else ParseRows(text[|CsvHeader|..])
  }

  /** Undoubling the quotes of a field gives the value back, and stops at its closing quote. */
  lemma {:induction false} QuotedRoundTrip(v: String, rest: String)
    requires rest == [] || rest[0] != 0x22
    ensures ParseQuoted(DoubleQuotes(v) + [0x22] + rest) == Some((v, rest))
  {
    var s := DoubleQuotes(v) + [0x22] + rest;
    if v == [] {
      assert s == [0x22] + rest;
      assert s[1..] == rest;
    } else {
      QuotedRoundTrip(v[1..], rest);
      var tail := DoubleQuotes(v[1..]) + [0x22] + rest;
      if v[0] == 0x22 {
        assert s == [0x22, 0x22] + tail;
        assert s[2..] == tail;
      } else {
        assert s == [v[0]] + tail;
        assert s[1..] == tail;
      }
      assert [v[0]] + v[1..] == v;
    }
  }

  /** A field reads back as its value, up to its closing quote. */
  lemma FieldRoundTrip(v: String, rest: String)
    requires rest == [] || rest[0] != 0x22
    ensures ParseField(CsvField(v) + rest) == Some((v, rest))
  {
    var s := CsvField(v) + rest;
    assert s[1..] == DoubleQuotes(v) + [0x22] + rest;
    QuotedRoundTrip(v, rest);
  }

  lemma RowRoundTrip(r: EncodingResult, rest: String)
    requires rest == [] || rest[0] == 0x0A
    ensures ParseRow(CsvRow(r) + rest) == Some((r, rest))
  {
    var second := CsvField(r.encoded) + rest;
    var afterFirst := [0x2C] + second;
    assert CsvRow(r) + rest == CsvField(r.original) + afterFirst;
    FieldRoundTrip(r.original, afterFirst);
    assert afterFirst[1..] == second;
    FieldRoundTrip(r.encoded, rest);
  }

  /** A row that reads back as r, whether it ends the text or a line feed follows it. */
  ghost predicate RowReadsBack(row: String, r: EncodingResult) {
    forall rest: String | rest == [] || rest[0] == 0x0A :: ParseRow(row + rest) == Some((r, rest))
  }

  /** Rows that each read back, joined by `\n`, read back as a whole. */
  lemma {:induction false} JoinedRowsRoundTrip(rows: seq<String>, results: seq<EncodingResult>)
    requires |rows| == |results| > 0
    requires forall i | 0 <= i < |rows| :: RowReadsBack(rows[i], results[i])
    ensures ParseRows(JoinWith(rows, 0x0A)) == Some(results)
  {
    if |rows| == 1 {
      OneRow(rows, results);
    } else {
      assert forall i | 0 <= i < |rows[1..]| :: rows[1..][i] == rows[i + 1] && results[1..][i] == results[i + 1];
      JoinedRowsRoundTrip(rows[1..], results[1..]);
      MoreRows(rows, results);
    }
  }

  /** One instance of `RowReadsBack`. */
  lemma ReadRow(row: String, r: EncodingResult, rest: String)
    requires RowReadsBack(row, r)
    requires rest == [] || rest[0] == 0x0A
    ensures ParseRow(row + rest) == Some((r, rest))
  {
  }

  /** A single row is the whole text. */
  lemma OneRow(rows: seq<String>, results: seq<EncodingResult>)
    requires |rows| == |results| == 1
    requires RowReadsBack(rows[0], results[0])
    ensures ParseRows(JoinWith(rows, 0x0A)) == Some(results)
  {
    assert JoinWith(rows, 0x0A) == rows[0] + [];
    LastRow(rows[0] + [], results[0]);
    assert results == [results[0]];
  }

  /** A first row, a line feed, and rows that read back. */
  lemma MoreRows(rows: seq<String>, results: seq<EncodingResult>)
    requires |rows| == |results| > 1
    requires RowReadsBack(rows[0], results[0])
    requires ParseRows(JoinWith(rows[1..], 0x0A)) == Some(results[1..])
    ensures ParseRows(JoinWith(rows, 0x0A)) == Some(results)
  {
    var tail := JoinWith(rows[1..], 0x0A);
    JoinCons(rows, 0x0A);
    ReadRow(rows[0], results[0], [0x0A] + tail);
    NextRow(rows[0] + ([0x0A] + tail), results[0], tail, results[1..]);
    assert [results[0]] + results[1..] == results;
  }

  lemma JoinCons(parts: seq<String>, sep: CodeUnit)
    requires |parts| > 1
    ensures JoinWith(parts, sep) == parts[0] + ([sep] + JoinWith(parts[1..], sep))
  {
  }

  lemma LastRow(s: String, r: EncodingResult)
    requires ParseRow(s) == Some((r, []))
    ensures ParseRows(s) == Some([r])
  {
  }

  lemma NextRow(s: String, r: EncodingResult, tail: String, rs: seq<EncodingResult>)
    requires ParseRow(s) == Some((r, [0x0A] + tail))
    requires ParseRows(tail) == Some(rs)
    ensures ParseRows(s) == Some([r] + rs)
  {
    assert ([0x0A] + tail)[1..] == tail;
  }

  /**
   * Reading the exported file back gives the results it was made from, whatever
   * quotes, commas or line feeds the URLs hold.
   */
  lemma CsvRoundTrip(results: seq<EncodingResult>)
    requires results != []
    ensures CsvText(results).Some?
    ensures ParseCsv(CsvText(results).value) == Some(results)
  {
    var text := CsvText(results).value;
    assert text[..|CsvHeader|] == CsvHeader;
    assert text[|CsvHeader|..] == JoinWith(CsvRows(results), 0x0A);
    var rows := CsvRows(results);
    forall i | 0 <= i < |rows| ensures RowReadsBack(rows[i], results[i]) {
      forall rest: String | rest == [] || rest[0] == 0x0A ensures ParseRow(rows[i] + rest) == Some((results[i], rest)) {
        RowRoundTrip(results[i], rest);
      }
    }
    JoinedRowsRoundTrip(rows, results);
  }

  /** No results, no file. */
  lemma NoResultsNoCsv()
    ensures CsvText([]) == None
  {
  }
}
