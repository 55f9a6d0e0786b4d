/**
 * The batch run of the link encoder tool (`handleEncode`): decide whether the
 * custom map is needed and reject one that is not an object, keep the non-blank
 * input lines, and encode each of them once or twice with the smart encoder.
 * `JSON.parse` is not modelled: its outcome is an input of the run.
 */
module LinkEncoder {
  import opened Utf16
  import opened Wrappers
  import opened Strategies
  import opened SmartEncoder

  /** One line of output: the line as typed and its encoding. */
  datatype EncodingResult = EncodingResult(original: String, encoded: String)

  /** The value `JSON.parse` gives for the custom-map text, or that it threw. */
  datatype ParsedCustomMap =
    | Unparsable
    | Null
    | Primitive                            // a number, string or boolean
    | ArrayValue(items: seq<String>)
    | ObjectValue(fields: map<String, String>)

  /** Why a run stopped before encoding anything, or how many lines it encoded. */
  datatype RunOutcome = MapRejected | NoUrls | Completed(count: nat)

  /** The map is only parsed when a method that will run is `custom`. */
  predicate NeedsCustomMap(method1: EncodingMethod, method2: EncodingMethod, doubleEncode: bool) {
    method1 == Custom || (doubleEncode && method2 == Custom)
  }

  /** `typeof v === 'object' && v !== null`: arrays pass. */
  predicate IsObject(parsed: ParsedCustomMap) {
    parsed.ArrayValue? || parsed.ObjectValue?
  }

  /**
   * The lookup table `map[c]` sees. An array is indexed by its element positions;
   * `[...s]` only ever looks up one character, so only the one-digit indices can
   * be hit, and those are the keys kept.
   */
  function AsCustomMap(parsed: ParsedCustomMap): CustomMap
    requires IsObject(parsed)
  {
    if parsed.ObjectValue? then parsed.fields
    else map i | 0 <= i < |parsed.items| && i < 10 :: IndexKey(i) := parsed.items[i]
  }

  /** The property name of a one-digit array index. */
  function IndexKey(i: nat): String
    requires i < 10
  {
    [0x30 + i]
  }

  /** The map the run encodes with, or None when the run aborts. */
  function CustomMapFor(method1: EncodingMethod, method2: EncodingMethod, doubleEncode: bool,
                        parsed: ParsedCustomMap): Option<CustomMap> {
    if !NeedsCustomMap(method1, method2, doubleEncode) then Some(map[])
    else if IsObject(parsed) then Some(AsCustomMap(parsed))
    else None
  }

  /**
   * Without a `custom` method the map text is never read: the run goes on with
   * `{}`. With one, the run aborts exactly when the text does not parse to an
   * object.
   */
  lemma MapGating(method1: EncodingMethod, method2: EncodingMethod, doubleEncode: bool, parsed: ParsedCustomMap)
    ensures !NeedsCustomMap(method1, method2, doubleEncode)
      ==> CustomMapFor(method1, method2, doubleEncode, parsed) == Some(map[])
    ensures NeedsCustomMap(method1, method2, doubleEncode)
      ==> (CustomMapFor(method1, method2, doubleEncode, parsed).None?
           <==> parsed.Unparsable? || parsed.Null? || parsed.Primitive?)
  {
  }

  /** An array's element at a one-digit index is the value for that digit. */
  lemma ArrayMapByIndex(items: seq<String>, i: nat)
    requires i < |items| && i < 10
    ensures IndexKey(i) in AsCustomMap(ArrayValue(items))
    ensures AsCustomMap(ArrayValue(items))[IndexKey(i)] == items[i]
  {
  }

  /** A line that trims to nothing. */
  predicate Blank(line: String) {
    Trim(line) == []
  }

  /** `.filter(url => url.trim() !== '')`: the non-blank lines, untrimmed, in order. */
  function NonBlank(lines: seq<String>): (r: seq<String>)
    ensures |r| <= |lines|
    ensures forall i | 0 <= i < |r| :: !Blank(r[i])
    ensures forall l :: l in r <==> l in lines && !Blank(l)
  {
    if lines == [] then []
    else if Blank(lines[0]) then NonBlank(lines[1..])
    else [lines[0]] + NonBlank(lines[1..])
  }

  /** `inputUrls.split('\n').filter(url => url.trim() !== '')`. */
  function UrlsToProcess(input: String): seq<String> {
    NonBlank(SplitOn(input, 0x0A))
  }

  /** The filter keeps the order of the lines: it works on each half of the input separately. */
  lemma {:induction false} NonBlankAppend(a: seq<String>, b: seq<String>)
    ensures NonBlank(a + b) == NonBlank(a) + NonBlank(b)
  {
    if a == [] {
      assert a + b == b;
    } else {
      assert (a + b)[1..] == a[1..] + b;
      NonBlankAppend(a[1..], b);
    }
  }

  /** Lines that are all non-blank survive the filter unchanged. */
  lemma {:induction false} NonBlankKeepsAll(lines: seq<String>)
    requires forall i | 0 <= i < |lines| :: !Blank(lines[i])
    ensures NonBlank(lines) == lines
  {
    if lines != [] {
      NonBlankKeepsAll(lines[1..]);
    }
  }

  /**
   * Joining non-blank lines without line feeds by `\n` and reading them back gives
   * the same lines, in the same order.
   */
  lemma LinesRoundTrip(lines: seq<String>)
    requires 0 < |lines|
    requires forall i | 0 <= i < |lines| :: 0x0A !in lines[i] && !Blank(lines[i])
    ensures UrlsToProcess(JoinWith(lines, 0x0A)) == lines
  {
    SplitJoin(lines, 0x0A);
    NonBlankKeepsAll(lines);
  }

  /** An input made only of white space and line terminators has no lines to process. */
  lemma {:induction false} BlankInputHasNoUrls(lines: seq<String>)
    requires forall i | 0 <= i < |lines| :: Blank(lines[i])
    ensures NonBlank(lines) == []
  {
    if lines != [] {
      BlankInputHasNoUrls(lines[1..]);
    }
  }

  /** The encoding of one line: method 1, then method 2 on its output when double encoding. */
  function EncodeLine(original: String, method1: EncodingMethod, method2: EncodingMethod,
                      doubleEncode: bool, m: CustomMap): String {
    var once := SmartEncoded(original, method1, m);
    if doubleEncode then SmartEncoded(once, method2, m) else once
  }

  /**
   * The `for` loop of the run: one result per line, in order, each holding the line
   * and its encoding.
   */
  method EncodeAll(urls: seq<String>, method1: EncodingMethod, method2: EncodingMethod,
                   doubleEncode: bool, m: CustomMap) returns (rs: seq<EncodingResult>)
    ensures ResultsFor(rs, urls, method1, method2, doubleEncode, m)
  {
    rs := [];
    var i := 0;
    while i < |urls|
      invariant 0 <= i <= |urls|
      invariant ResultsFor(rs, urls[..i], method1, method2, doubleEncode, m)
    {
      rs := AppendResult(rs, urls, i, method1, method2, doubleEncode, m);
      i := i + 1;
    }
    assert urls[..i] == urls;
  }

  /** One result per line, in order, each holding the line and its encoding. */
  predicate ResultsFor(rs: seq<EncodingResult>, urls: seq<String>, method1: EncodingMethod,
                       method2: EncodingMethod, doubleEncode: bool, m: CustomMap)
  {
    && |rs| == |urls|
    && forall i | 0 <= i < |urls| ::
         rs[i] == EncodingResult(urls[i], EncodeLine(urls[i], method1, method2, doubleEncode, m))
  }

  /** One turn of the loop: line i is encoded and its result pushed. */
  method AppendResult(rs: seq<EncodingResult>, urls: seq<String>, i: nat, method1: EncodingMethod,
                      method2: EncodingMethod, doubleEncode: bool, m: CustomMap) returns (rs': seq<EncodingResult>)
    requires i < |urls| && ResultsFor(rs, urls[..i], method1, method2, doubleEncode, m)
    ensures ResultsFor(rs', urls[..i + 1], method1, method2, doubleEncode, m)
  {
    var result := EncodeOne(urls[i], method1, method2, doubleEncode, m);
    rs' := rs + [result];
    assert urls[..i + 1] == urls[..i] + [urls[i]];
  }

  /** The body of the loop: `encodeUrlSmart` once, and again on its output when double encoding. */
  method EncodeOne(originalUrl: String, method1: EncodingMethod, method2: EncodingMethod,
                   doubleEncode: bool, m: CustomMap) returns (result: EncodingResult)
    ensures result == EncodingResult(originalUrl, EncodeLine(originalUrl, method1, method2, doubleEncode, m))
  {
    var encodedUrl := EncodeUrlSmart(originalUrl, method1, m);
    if doubleEncode {
      encodedUrl := EncodeUrlSmart(encodedUrl, method2, m);
    }
    result := EncodingResult(originalUrl, encodedUrl);
  }

  /** The tool's inputs and its results list. */
  class LinkEncoderTool {
    var inputUrls: String
    var method1: EncodingMethod
    var method2: EncodingMethod
    var doubleEncode: bool
    var customMap: ParsedCustomMap
    var results: seq<EncodingResult>

    /** The tool as first shown: no results yet. */
    constructor (inputUrls: String, method1: EncodingMethod, method2: EncodingMethod,
                 doubleEncode: bool, customMap: ParsedCustomMap)
      ensures this.inputUrls == inputUrls && this.method1 == method1 && this.method2 == method2
      ensures this.doubleEncode == doubleEncode && this.customMap == customMap
      ensures results == []
    {
      this.inputUrls := inputUrls;
      this.method1 := method1;
      this.method2 := method2;
      this.doubleEncode := doubleEncode;
      this.customMap := customMap;
      results := [];
    }

    /**
     * `handleEncode`: the old results are cleared first; a rejected map or an input
     * without lines leaves them empty; otherwise they become one result per
     * non-blank line.
     */
    method HandleEncode() returns (outcome: RunOutcome)
      modifies this
      ensures unchanged(this`inputUrls) && unchanged(this`method1) && unchanged(this`method2)
      ensures unchanged(this`doubleEncode) && unchanged(this`customMap)
      ensures CustomMapFor(method1, method2, doubleEncode, customMap).None?
        ==> outcome == MapRejected && results == []
      ensures CustomMapFor(method1, method2, doubleEncode, customMap).Some? && UrlsToProcess(inputUrls) == []
        ==> outcome == NoUrls && results == []
      ensures CustomMapFor(method1, method2, doubleEncode, customMap).Some? && UrlsToProcess(inputUrls) != []
        ==> outcome == Completed(|UrlsToProcess(inputUrls)|)
            && |results| == |UrlsToProcess(inputUrls)|
            && forall i | 0 <= i < |results| ::
                 results[i].original == UrlsToProcess(inputUrls)[i]
                 && results[i].encoded == EncodeLine(UrlsToProcess(inputUrls)[i], method1, method2, doubleEncode,
                                                     CustomMapFor(method1, method2, doubleEncode, customMap).value)
    {
      results := [];
      var m := CustomMapFor(method1, method2, doubleEncode, customMap);
      if m.None? {
        return MapRejected;
      }
      var urlsToProcess := UrlsToProcess(inputUrls);
      if |urlsToProcess| == 0 {
        return NoUrls;
      }
      var newResults := EncodeAll(urlsToProcess, method1, method2, doubleEncode, m.value);
      results := newResults;
      outcome := Completed(|urlsToProcess|);
    }
  }
}
