/**
  The M-SEARCH reply parser of main.py (`parse_ssdp_data`): the payload is cut
  into lines at "\r\n", every line is matched on the text before its first ':'
  and the SERVER, LOCATION and USN lines fill a four-entry dictionary. The code
  has no exception handler, so an index past the end of a list or a string
  (Python's IndexError) ends the whole parse.
 */
module SsdpParse {
  import opened Wrappers
  import opened PyStrings

  const HeaderHttp := "http"
  const HeaderServer := "server"
  const HeaderLocation := "location"
  const HeaderUsn := "usn"

  const LineSeparator := "\r\n"

  /** The only exception the parser can raise. */
  datatype ParseError = IndexError

  /** The result dictionary, keyed by "server", "version", "location" and "uuid". */
  type SsdpDict = map<string, string>

  const ResultKeys: set<string> := {"server", "version", "location", "uuid"}

  /** The dictionary every parse starts from: the four keys, all empty. */
  function Defaults(): (d: SsdpDict)
    ensures d.Keys == ResultKeys
    ensures forall k :: k in d ==> d[k] == ""
  {
    map["server" := "", "version" := "", "location" := "", "uuid" := ""]
  }

  /** The name a line is matched on: the text before its first ':', lower-cased. */
  function HeaderName(line: string): string
  {
    Lower(Split(line, ":")[0])
  }

  /** The status-line test as the code writes it: `line[0:3].lower() != "http"`. */
  predicate NotStatusLine(line: string)
  {
    Lower(SliceTo(line, 3)) != HeaderHttp
  }

  /** The last ' '-separated word of a line. */
  function LastWord(line: string): string
  {
    var words := Split(line, " ");
    words[|words| - 1]
  }

  /** SERVER: the first two '/'-fields of the last word are the server and its version. */
  function ServerField(d: SsdpDict, line: string): Result<SsdpDict, ParseError>
  {
    var parts := Split(LastWord(line), "/");
    if |parts| < 2 then Err(IndexError)
    else Ok(d["server" := parts[0]]["version" := parts[1]])
  }

  /** `s[1::1]` when `s` starts with a space, `s` otherwise. */
  function DropLeadingSpace(s: string): string
    requires |s| > 0
  {
    if s[0] != ' ' then s else s[1..]
  }

  /**
    LOCATION: ':'-fields 1 to 3 joined again with ':'. Field 1 must be
    non-empty (its first character is inspected) and there must be four fields.
   */
  function LocationField(d: SsdpDict, line: string): Result<SsdpDict, ParseError>
  {
    var words := Split(line, ":");
    if |words| < 2 || |words[1]| == 0 || |words| < 4 then Err(IndexError)
    else Ok(d["location" := DropLeadingSpace(words[1]) + ":" + words[2] + ":" + words[3]])
  }

  /** USN: the third ':'-field is the uuid. */
  function UsnField(d: SsdpDict, line: string): Result<SsdpDict, ParseError>
  {
    var words := Split(line, ":");
    if |words| < 3 then Err(IndexError)
    else Ok(d["uuid" := words[2]])
  }

  /** One iteration of the loop over the lines. */
  function ParseLine(d: SsdpDict, line: string): Result<SsdpDict, ParseError>
  {
    if !NotStatusLine(line) then Ok(d)
    else
      var name := HeaderName(line);
      if name == HeaderServer then ServerField(d, line)
      else if name == HeaderLocation then LocationField(d, line)
      else if name == HeaderUsn then UsnField(d, line)
      else Ok(d)
  }

  /** The loop as a left fold; the first IndexError ends it. */
  function ParseLines(d: SsdpDict, lines: seq<string>): Result<SsdpDict, ParseError>
    decreases |lines|
  {
    if |lines| == 0 then Ok(d)
    else
      match ParseLine(d, lines[0])
      case Err(e) => Err(e)
      case Ok(next) => ParseLines(next, lines[1..])
  }

  /** `parse_ssdp_data`. */
  method ParseSsdpData(ssdpData: string) returns (r: Result<SsdpDict, ParseError>)
    ensures r == ParseLines(Defaults(), Split(ssdpData, LineSeparator))
    ensures r.Ok? ==> r.value.Keys == ResultKeys
  {
    var ssdpDict := Defaults();
    var ssdpStrings := Split(ssdpData, LineSeparator);
    ParseKeepsKeys(ssdpDict, ssdpStrings);
    var i := 0;
    while i < |ssdpStrings|
      invariant 0 <= i <= |ssdpStrings|
      invariant ParseLines(ssdpDict, ssdpStrings[i..]) == ParseLines(Defaults(), ssdpStrings)
    {
      var step := ParseLine(ssdpDict, ssdpStrings[i]);
      assert ssdpStrings[i..][1..] == ssdpStrings[i + 1..];
      if step.Err? {
        return Err(step.error);
      }
      ssdpDict := step.value;
      i := i + 1;
    }
    return Ok(ssdpDict);
  }

  // ---------------------------------------------------------------------------
  // The shape of the result

  /** A step never adds or removes a key of a dictionary that has all four. */
  lemma LineKeepsKeys(d: SsdpDict, line: string)
    requires ResultKeys <= d.Keys
    ensures ParseLine(d, line).Ok? ==> ParseLine(d, line).value.Keys == d.Keys
  {
  }

  /** A successful parse has exactly the keys it started with. */
  lemma {:induction false} ParseKeepsKeys(d: SsdpDict, lines: seq<string>)
    requires d.Keys == ResultKeys
    ensures ParseLines(d, lines).Ok? ==> ParseLines(d, lines).value.Keys == ResultKeys
    decreases |lines|
  {
    if |lines| > 0 {
      LineKeepsKeys(d, lines[0]);
      if ParseLine(d, lines[0]).Ok? {
        ParseKeepsKeys(ParseLine(d, lines[0]).value, lines[1..]);
      }
    }
  }

  /** Parsing a concatenation of line lists parses the second from where the first ends. */
  lemma {:induction false} ParseAppend(d: SsdpDict, xs: seq<string>, ys: seq<string>)
    ensures ParseLines(d, xs + ys) ==
      match ParseLines(d, xs)
      case Err(e) => Err(e)
      case Ok(mid) => ParseLines(mid, ys)
    decreases |xs|
  {
    if |xs| == 0 {
      assert xs + ys == ys;
    } else {
      assert (xs + ys)[0] == xs[0] && (xs + ys)[1..] == xs[1..] + ys;
      match ParseLine(d, xs[0])
      case Err(_) =>
      case Ok(next) => ParseAppend(next, xs[1..], ys);
    }
  }

  // ---------------------------------------------------------------------------
  // Which lines change which entry

  /** The header whose line writes `key`. */
  function WriterOf(key: string): string
  {
    if key == "server" || key == "version" then HeaderServer
    else if key == "location" then HeaderLocation
    else HeaderUsn
  }

  /** A line only ever changes the entries its own header writes. */
  lemma LineWritesOnlyItsKeys(d: SsdpDict, line: string, key: string)
    requires key in d
    requires ParseLine(d, line).Ok?
    requires HeaderName(line) != WriterOf(key)
    ensures key in ParseLine(d, line).value && ParseLine(d, line).value[key] == d[key]
  {
  }

  /** An entry no line writes keeps its starting value; from `Defaults()` that is "". */
  lemma {:induction false} UnwrittenKeyKept(d: SsdpDict, lines: seq<string>, key: string)
    requires key in d
    requires ParseLines(d, lines).Ok?
    requires forall i :: 0 <= i < |lines| ==> HeaderName(lines[i]) != WriterOf(key)
    ensures key in ParseLines(d, lines).value && ParseLines(d, lines).value[key] == d[key]
    decreases |lines|
  {
    if |lines| > 0 {
      LineWritesOnlyItsKeys(d, lines[0], key);
      var next := ParseLine(d, lines[0]).value;
      UnwrittenKeyKept(next, lines[1..], key);
    }
  }

  /** The last line that writes an entry decides its value: later lines overwrite earlier ones. */
  lemma {:induction false} LastWriterWins(d: SsdpDict, xs: seq<string>, line: string, ys: seq<string>, key: string)
    requires ResultKeys <= d.Keys && key in ResultKeys
    requires ParseLines(d, xs + [line] + ys).Ok?
    requires forall i :: 0 <= i < |ys| ==> HeaderName(ys[i]) != WriterOf(key)
    ensures ParseLines(d, xs).Ok?
    ensures ParseLine(ParseLines(d, xs).value, line).Ok?
    ensures key in ParseLine(ParseLines(d, xs).value, line).value
    ensures key in ParseLines(d, xs + [line] + ys).value
    ensures ParseLines(d, xs + [line] + ys).value[key] ==
            ParseLine(ParseLines(d, xs).value, line).value[key]
  {
    var all := xs + [line] + ys;
    var tail := [line] + ys;
    assert all == xs + tail;
    ParseAppend(d, xs, tail);
    KeysGrow(d, xs);
    var mid := ParseLines(d, xs).value;
    assert ParseLines(mid, tail) == ParseLines(d, all);
    ParseCons(mid, line, ys);
    LineKeepsKeys(mid, line);
    var after := ParseLine(mid, line).value;
    UnwrittenKeyKept(after, ys, key);
  }

  /** Parsing `[line] + ys` is one step on `line`, then the rest on `ys`. */
  lemma ParseCons(d: SsdpDict, line: string, ys: seq<string>)
    ensures ParseLines(d, [line] + ys) ==
      if ParseLine(d, line).Err? then Err(ParseLine(d, line).error) else ParseLines(ParseLine(d, line).value, ys)
  {
    assert ([line] + ys)[0] == line && ([line] + ys)[1..] == ys;
  }

  /** Successful steps never lose a key. */
  lemma {:induction false} KeysGrow(d: SsdpDict, lines: seq<string>)
    ensures ParseLines(d, lines).Ok? ==> d.Keys <= ParseLines(d, lines).value.Keys
    decreases |lines|
  {
    if |lines| > 0 && ParseLine(d, lines[0]).Ok? {
      KeysGrow(ParseLine(d, lines[0]).value, lines[1..]);
    }
  }

  // ---------------------------------------------------------------------------
  // Header names and status lines

  /** The header name of `h:rest` is `h` lower-cased. */
  lemma HeaderNameOf(h: string, rest: string)
    requires Free(h, ':')
    ensures HeaderName(h + ":" + rest) == Lower(h)
  {
    SplitCons(h, ':', rest);
  }

  /** The status-line test never holds: a slice of at most 3 characters is never "http". */
  lemma StatusTestNeverSkips(line: string)
    ensures NotStatusLine(line)
  {
  }

  /** The first piece of a split starts with the first character when that is not the separator. */
  lemma FirstPieceStart(s: string, c: char)
    requires |s| > 0 && s[0] != c
    ensures |Split(s, [c])[0]| > 0 && Split(s, [c])[0][0] == s[0]
  {
    assert !OccursAt(s, [c], 0) by { assert s[0..1] == [s[0]]; }
  }

  /**
    A status line ("HTTP/1.1 200 OK", in any case) is not skipped, yet it
    leaves the dictionary as it was: its name starts with 'h', and no header
    the parser knows does.
   */
  lemma StatusLineUnchanged(d: SsdpDict, line: string)
    requires Lower(SliceTo(line, 4)) == HeaderHttp
    ensures ParseLine(d, line) == Ok(d)
  {
    assert LowerChar(line[0]) == 'h';
    FirstPieceStart(line, ':');
    assert HeaderName(line)[0] == 'h';
  }

  /** A line with any other name leaves the dictionary unchanged. */
  lemma OtherHeaderUnchanged(d: SsdpDict, line: string)
    requires HeaderName(line) !in {HeaderServer, HeaderLocation, HeaderUsn}
    ensures ParseLine(d, line) == Ok(d)
  {
  }

  // ---------------------------------------------------------------------------
  // SERVER

  /** The last word of `pre word` is `word` when `word` has no space. */
  lemma {:induction false} SplitLast(x: string, c: char, y: string)
    requires Free(y, c)
    ensures var ws := Split(x + [c] + y, [c]); ws[|ws| - 1] == y
    decreases |x|
  {
    var s := x + [c] + y;
    assert OccursAt(s, [c], |x|) by { assert s[|x|..|x| + 1] == [c]; }
    var i := Find(s, [c]).value;
    if i == |x| {
      assert s[i + 1..] == y;
      SplitFree(y, c);
    } else {
      assert s[i..i + 1] == [s[i]];
      var x' := x[i + 1..];
      assert s[i + 1..] == x' + [c] + y;
      SplitLast(x', c, y);
    }
  }

  /** A SERVER line is handled by its last word, the text after its last space. */
  lemma ServerWord(d: SsdpDict, h: string, mid: string, word: string)
    requires Lower(h) == HeaderServer && Free(h, ':') && Free(word, ' ')
    ensures ParseLine(d, h + ":" + mid + " " + word) == ServerField(d, h + ":" + mid + " " + word)
    ensures LastWord(h + ":" + mid + " " + word) == word
  {
    var line := h + ":" + mid + " " + word;
    assert line == h + ":" + (mid + " " + word);
    HeaderNameOf(h, mid + " " + word);
    assert line == (h + ":" + mid) + [' '] + word;
    SplitLast(h + ":" + mid, ' ', word);
    ServerDispatch(d, line);
  }

  /**
    For `SERVER:<anything> <product>/<version>` the server is the product and
    the version is what follows its '/'.
   */
  lemma ServerLine(d: SsdpDict, h: string, mid: string, product: string, version: string)
    requires Lower(h) == HeaderServer && Free(h, ':')
    requires Free(product, ' ') && Free(product, '/')
    requires Free(version, ' ') && Free(version, '/')
    ensures ParseLine(d, h + ":" + mid + " " + product + "/" + version) ==
            Ok(d["server" := product]["version" := version])
  {
    var word := product + "/" + version;
    assert h + ":" + mid + " " + product + "/" + version == h + ":" + mid + " " + word;
    assert Free(word, ' ');
    ServerWord(d, h, mid, word);
    SplitCons(product, '/', version);
    SplitFree(version, '/');
  }

  /**
    The same when the last word has more '/'-fields: `SERVER:<anything>
    <product>/<version>/<rest>` still takes the first two fields, and the
    rest is dropped.
   */
  lemma ServerLineLonger(d: SsdpDict, h: string, mid: string, product: string, version: string, rest: string)
    requires Lower(h) == HeaderServer && Free(h, ':')
    requires Free(product, ' ') && Free(product, '/')
    requires Free(version, ' ') && Free(version, '/')
    requires Free(rest, ' ')
    ensures ParseLine(d, h + ":" + mid + " " + product + "/" + version + "/" + rest) ==
            Ok(d["server" := product]["version" := version])
  {
    var tail := version + "/" + rest;
    var word := product + "/" + tail;
    assert h + ":" + mid + " " + product + "/" + version + "/" + rest == h + ":" + mid + " " + word;
    assert Free(word, ' ');
    ServerWord(d, h, mid, word);
    SplitCons(product, '/', tail);
    SplitCons(version, '/', rest);
  }

  /** The reply of an 8SMC5-USB controller: server "8SMC5-USB", version "4.7.7". */
  lemma ServerExample()
    ensures ParseLine(Defaults(), "SERVER: lwIP/1.4.1 UPnP/2.0 8SMC5-USB/4.7.7") ==
            Ok(Defaults()["server" := "8SMC5-USB"]["version" := "4.7.7"])
  {
    assert "SERVER: lwIP/1.4.1 UPnP/2.0 8SMC5-USB/4.7.7" ==
      "SERVER" + ":" + " lwIP/1.4.1 UPnP/2.0" + " " + "8SMC5-USB" + "/" + "4.7.7";
    ServerLine(Defaults(), "SERVER", " lwIP/1.4.1 UPnP/2.0", "8SMC5-USB", "4.7.7");
  }

  /** A SERVER line raises exactly when its last word has no '/'. */
  lemma ServerFails(d: SsdpDict, line: string)
    requires HeaderName(line) == HeaderServer
    ensures ParseLine(d, line).Err? <==> Free(LastWord(line), '/')
  {
    SplitLength(LastWord(line), '/');
    CountFree(LastWord(line), '/');
    ServerDispatch(d, line);
  }

  /** A line named SERVER is handled by the SERVER branch alone. */
  lemma ServerDispatch(d: SsdpDict, line: string)
    requires HeaderName(line) == HeaderServer
    ensures ParseLine(d, line) == ServerField(d, line)
  {
    StatusTestNeverSkips(line);
  }

  // ---------------------------------------------------------------------------
  // LOCATION and USN, stated over the ':'-fields of the line

  /** Every field of `parts` is free of ':'. */
  predicate ColonFree(parts: seq<string>)
  {
    forall k :: 0 <= k < |parts| ==> Free(parts[k], ':')
  }

  /**
    LOCATION with at least four ':'-fields and a non-empty field 1: the value
    is fields 1..3 joined by ':', field 1 without one leading space; fields
    after the fourth are dropped.
   */
  lemma LocationLine(d: SsdpDict, parts: seq<string>)
    requires |parts| >= 4 && ColonFree(parts)
    requires Lower(parts[0]) == HeaderLocation && parts[1] != ""
    ensures ParseLine(d, Join(parts, ":")) ==
            Ok(d["location" := DropLeadingSpace(parts[1]) + ":" + parts[2] + ":" + parts[3]])
  {
    SplitJoin(parts, ':');
    LocationDispatch(d, Join(parts, ":"));
  }

  /** A LOCATION line raises exactly when it has fewer than four fields or an empty field 1. */
  lemma LocationFails(d: SsdpDict, parts: seq<string>)
    requires |parts| >= 1 && ColonFree(parts)
    requires Lower(parts[0]) == HeaderLocation
    ensures ParseLine(d, Join(parts, ":")).Err? <==> (|parts| < 4 || parts[1] == "")
  {
    SplitJoin(parts, ':');
    LocationDispatch(d, Join(parts, ":"));
  }

  /** A line named LOCATION is handled by the LOCATION branch alone. */
  lemma LocationDispatch(d: SsdpDict, line: string)
    requires HeaderName(line) == HeaderLocation
    ensures ParseLine(d, line) == LocationField(d, line)
  {
    StatusTestNeverSkips(line);
  }

  /** USN with at least three ':'-fields: the uuid is field 2. */
  lemma UsnLine(d: SsdpDict, parts: seq<string>)
    requires |parts| >= 3 && ColonFree(parts)
    requires Lower(parts[0]) == HeaderUsn
    ensures ParseLine(d, Join(parts, ":")) == Ok(d["uuid" := parts[2]])
  {
    SplitJoin(parts, ':');
    UsnDispatch(d, Join(parts, ":"));
  }

  /** A USN line raises exactly when it has fewer than two ':'. */
  lemma UsnFails(d: SsdpDict, line: string)
    requires HeaderName(line) == HeaderUsn
    ensures ParseLine(d, line).Err? <==> Count(line, ':') < 2
  {
    SplitLength(line, ':');
    UsnDispatch(d, line);
  }

  /** A line named USN is handled by the USN branch alone. */
  lemma UsnDispatch(d: SsdpDict, line: string)
    requires HeaderName(line) == HeaderUsn
    ensures ParseLine(d, line) == UsnField(d, line)
  {
    StatusTestNeverSkips(line);
  }
}
