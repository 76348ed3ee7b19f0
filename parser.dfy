/**
  The request-head parser of src/parser.rs: `HttpRequest::new` turns the raw
  lines of one HTTP/1.1 request head into an `HttpRequest`, with the helpers
  `parse_params` (the query string) and `parse_accept` (the `Accept` header).

  The three operations are methods with the loops of `src/parser.rs`; each is
  proved against the specification functions of this module, whose properties
  are the lemmas of module ParserProperties.
*/
module Parser {
  import opened Wrappers
  import opened StdStr
  import opened LastWrite

  /** The parsed request head. `requestMethod` is the Rust field `method`. */
  datatype HttpRequest = HttpRequest(
    requestMethod: string,
    host: string,
    version: string,
    path: string,
    connection: string,
    accept: seq<string>,
    params: map<string, string>,
    headers: map<string, string>,
    badRequest: bool)

  /** The line that ends processing: every line from it on is ignored. */
  const Terminator: string := "\r\n"

  // ---------------------------------------------------------------------------
  // Specification
  // ---------------------------------------------------------------------------

  /** How many leading lines are processed: those before the first terminator. */
  function ProcessedCount(lines: seq<string>): (n: nat)
    ensures n <= |lines| && Terminator !in lines[..n]
    ensures n < |lines| ==> lines[n] == Terminator
  {
    match IndexOf(lines, Terminator)
    case None => assert lines[..|lines|] == lines; |lines|
    case Some(i) => i
  }

  /** Token `i` of the request line, or "" when the line has fewer tokens. */
  function TokenAt(tokens: seq<string>, i: nat): string {
    if i < |tokens| then tokens[i] else ""
  }

  /** The request target split at its first `?` into path and query string. */
  function SplitTarget(target: string): (r: (string, string))
    ensures '?' in target ==> target == r.0 + "?" + r.1 && '?' !in r.0
    ensures '?' !in target ==> r == (target, "")
  {
    match SplitOnce(target, '?')
    case Some(pathAndQuery) => pathAndQuery
    case None => (target, "")
  }

  /** The insertion one `&`-separated fragment of a query string makes, if any. */
  function ParamEntry(fragment: string): (r: Option<(string, string)>)
    ensures r.Some? ==> r.value.0 != "" && IsTrimmed(r.value.0)
    ensures r.Some? ==> r.value.1 != "" && IsTrimmed(r.value.1)
    ensures '=' !in fragment ==> r.None?
  {
    var (key, pair) := match SplitOnce(fragment, '=')
      case Some(keyAndPair) => keyAndPair
      case None => ("", "");
    var keyClean, pairClean := Trim(key), Trim(pair);
    if keyClean != "" && pairClean != "" then Some((keyClean, pairClean)) else None
  }

  /** The insertions the fragments of a query string make, one entry per fragment. */
  function ParamWrites(fragments: seq<string>): (ws: seq<Option<(string, string)>>)
    ensures |ws| == |fragments|
    decreases |fragments|
  {
    if fragments == [] then []
    else ParamWrites(fragments[..|fragments| - 1]) + [ParamEntry(fragments[|fragments| - 1])]
  }

  lemma {:induction false} ParamWritesAt(fragments: seq<string>)
    ensures forall j :: 0 <= j < |fragments| ==> ParamWrites(fragments)[j] == ParamEntry(fragments[j])
    decreases |fragments|
  {
    if fragments != [] {
      var init := fragments[..|fragments| - 1];
      ParamWritesAt(init);
      assert forall j :: 0 <= j < |init| ==> init[j] == fragments[j];
    }
  }

  /** The parameter map a query string yields. */
  function ParamsOf(query: string): (params: map<string, string>)
    ensures forall k :: k in params ==> k != "" && IsTrimmed(k)
    ensures forall k :: k in params ==> params[k] != "" && IsTrimmed(params[k])
  {
    var ws := ParamWrites(Split(query, '&'));
    var params := Updates(ws);
    UpdatesKeys(ws);
    ParamWritesAt(Split(query, '&'));
    assert forall k :: k in params ==> exists j :: 0 <= j < |ws| && ParamEntry(Split(query, '&')[j]) == Some((k, params[k]));
    params
  }

  /** The trimmed key and value of one header line; ("", "") when it has no `:`. */
  function HeaderEntry(line: string): (r: (string, string))
    ensures IsTrimmed(r.0) && IsTrimmed(r.1)
    ensures ':' !in line ==> r == ("", "")
  {
    var (key, pair) := match SplitOnce(line, ':')
      case Some(keyAndPair) => keyAndPair
      case None => ("", "");
    (Trim(key), Trim(pair))
  }

  /** The insertions the header lines make, one entry per line. */
  function HeaderWrites(headerLines: seq<string>): (ws: seq<Option<(string, string)>>)
    ensures |ws| == |headerLines|
    decreases |headerLines|
  {
    if headerLines == [] then []
    else HeaderWrites(headerLines[..|headerLines| - 1]) + [Some(HeaderEntry(headerLines[|headerLines| - 1]))]
  }

  lemma {:induction false} HeaderWritesAt(headerLines: seq<string>)
    ensures forall j :: 0 <= j < |headerLines| ==> HeaderWrites(headerLines)[j] == Some(HeaderEntry(headerLines[j]))
    decreases |headerLines|
  {
    if headerLines != [] {
      var init := headerLines[..|headerLines| - 1];
      HeaderWritesAt(init);
      assert forall j :: 0 <= j < |init| ==> init[j] == headerLines[j];
    }
  }

  /** The value stored under `key`, or "" when there is none. */
  function Lookup(m: map<string, string>, key: string): string {
    if key in m then m[key] else ""
  }

  /** Some header line has no `:`. */
  predicate HasMalformedLine(headerLines: seq<string>) {
    exists j :: 0 <= j < |headerLines| && ':' !in headerLines[j]
  }

  /** The header map the header lines leave behind. */
  function HeadersOf(headerLines: seq<string>): map<string, string> {
    Updates(HeaderWrites(headerLines))
  }

  /** The request made of the tokens of the request line, the header map and the bad-request flag. */
  function Assemble(tokens: seq<string>, headers: map<string, string>, malformed: bool): HttpRequest {
    var (path, query) := SplitTarget(TokenAt(tokens, 1));
    HttpRequest(
      requestMethod := TokenAt(tokens, 0),
      host := Lookup(headers, "Host"),
      version := TokenAt(tokens, 2),
      path := path,
      connection := Lookup(headers, "Connection"),
      accept := if "Accept" in headers then Split(headers["Accept"], ',') else [],
      params := ParamsOf(query),
      headers := headers,
      badRequest := malformed)
  }

  /** The request made of the processed lines `ls`: request line first, then header lines. */
  function FromLines(ls: seq<string>): HttpRequest {
    if |ls| == 0 then Assemble([], map[], false)
    else Assemble(SplitWhitespace(ls[0]), HeadersOf(ls[1..]), HasMalformedLine(ls[1..]))
  }

  /** The request before any line is processed: every field empty, not bad. */
  const EmptyRequest := HttpRequest("", "", "", "", "", [], map[], map[], false)

  /**
    What processing one more line does to the request: the first line fills
    method, path, parameters and version; every later line inserts its header
    entry, sets `host`, `connection` or `accept` when its name is exactly
    `Host`, `Connection` or `Accept`, and marks the request bad when it has no `:`.
  */
  function Step(r: HttpRequest, first: bool, line: string): HttpRequest {
    if first then
      var tokens := SplitWhitespace(line);
      var (path, query) := SplitTarget(TokenAt(tokens, 1));
      r.(requestMethod := TokenAt(tokens, 0), path := path,
         version := TokenAt(tokens, 2), params := ParamsOf(query))
    else
      var (key, value) := HeaderEntry(line);
      r.(headers := r.headers[key := value],
         host := if key == "Host" then value else r.host,
         connection := if key == "Connection" then value else r.connection,
         accept := if key == "Accept" then Split(value, ',') else r.accept,
         badRequest := r.badRequest || ':' !in line)
  }

  /** The request left by processing the lines `ls` one after another. */
  function Processed(ls: seq<string>): HttpRequest
    decreases |ls|
  {
    if ls == [] then EmptyRequest
    else Step(Processed(ls[..|ls| - 1]), |ls| == 1, ls[|ls| - 1])
  }

  /** Processing one more line of `s` applies `Step` to the request so far. */
  lemma ProcessedSnoc(s: seq<string>, n: nat)
    requires n < |s|
    ensures Processed(s[..n + 1]) == Step(Processed(s[..n]), n == 0, s[n])
  {
    assert s[..n + 1][..n] == s[..n];
  }

  /** Processing the lines one by one builds the request the lines describe. */
  lemma {:induction false} ProcessedIsFromLines(ls: seq<string>)
    ensures Processed(ls) == FromLines(ls)
    decreases |ls|
  {
    if ls == [] {
      NoLines();
    } else if |ls| == 1 {
      ProcessedRequestLine(ls[0]);
      assert ls == [ls[0]];
    } else {
      var init := ls[..|ls| - 1];
      InitAndLast(ls);
      ProcessedIsFromLines(init);
      ProcessedHeaderLine(init, ls[|ls| - 1]);
    }
  }

  lemma ProcessedRequestLine(line: string)
    ensures Processed([line]) == FromLines([line])
  {
    assert [line][..0] == [];
    NoLines();
    FromRequestLine(line);
  }

  lemma ProcessedHeaderLine(ls: seq<string>, line: string)
    requires |ls| >= 1 && Processed(ls) == FromLines(ls)
    ensures Processed(ls + [line]) == FromLines(ls + [line])
  {
    ProcessedAppend(ls, line);
    FromHeaderLine(ls, line);
  }

  lemma ProcessedAppend(ls: seq<string>, line: string)
    requires |ls| >= 1
    ensures Processed(ls + [line]) == Step(Processed(ls), false, line)
  {
    assert (ls + [line])[..|ls|] == ls;
  }

  /** The tokens of the request line, when it is processed. */
  function RequestLineTokens(lines: seq<string>): seq<string> {
    if ProcessedCount(lines) == 0 then [] else SplitWhitespace(lines[0])
  }

  /** The processed lines after the request line, the header lines. */
  function HeaderLinesOf(lines: seq<string>): (headerLines: seq<string>)
    ensures |headerLines| == if ProcessedCount(lines) == 0 then 0 else ProcessedCount(lines) - 1
  {
    var n := ProcessedCount(lines);
    if n == 0 then [] else lines[1..n]
  }

  /** Header line `l` is line `l + 1` of the request. */
  lemma HeaderLineAt(lines: seq<string>, l: nat)
    requires l < |HeaderLinesOf(lines)|
    ensures HeaderLinesOf(lines)[l] == lines[l + 1]
  {
  }

  /** The request `HttpRequest::new` builds from `lines`. */
  function RequestOf(lines: seq<string>): HttpRequest {
    var headerLines := HeaderLinesOf(lines);
    Assemble(RequestLineTokens(lines), HeadersOf(headerLines), HasMalformedLine(headerLines))
  }

  /** `RequestOf` is the request made of the processed lines. */
  lemma RequestOfProcessed(lines: seq<string>)
    ensures RequestOf(lines) == FromLines(lines[..ProcessedCount(lines)])
  {
    var n := ProcessedCount(lines);
    if n > 0 {
      assert lines[..n][0] == lines[0];
      assert lines[..n][1..] == lines[1..n];
    }
  }

  // ---------------------------------------------------------------------------
  // The operations
  // ---------------------------------------------------------------------------

  /** `parse_accept`: the fragments between commas, none of them trimmed. */
  method ParseAccept(acceptString: string) returns (accept: seq<string>)
    ensures accept == Split(acceptString, ',')
    ensures |accept| == multiset(acceptString)[','] + 1
    ensures forall k :: 0 <= k < |accept| ==> ',' !in accept[k]
    ensures Join(accept, ',') == acceptString
  {
    accept := [];
    var fragments := Split(acceptString, ',');
    for i := 0 to |fragments|
      invariant accept == fragments[..i]
    {
      accept := accept + [fragments[i]];
    }
    assert accept == fragments;
    SplitCount(acceptString, ',');
    JoinSplit(acceptString, ',');
  }

  /** `parse_params`: the `key=value` pairs of a query string, trimmed, empty ones dropped. */
  method ParseParams(paramsString: string) returns (params: map<string, string>)
    ensures params == ParamsOf(paramsString)
  {
    params := map[];
    var fragments := Split(paramsString, '&');
    ghost var ws := ParamWrites(fragments);
    ParamWritesAt(fragments);
    for i := 0 to |fragments|
      invariant params == Updates(ws[..i])
    {
      var paramOption := SplitOnce(fragments[i], '=');
      var key, pair;
      match paramOption {
        case Some((k, p)) => key, pair := k, p;
        case None => key, pair := "", "";
      }
      var keyClean := Trim(key);
      var pairClean := Trim(pair);
      if keyClean != "" && pairClean != "" {
        params := params[keyClean := pairClean];
      }
      assert ws[i] == ParamEntry(fragments[i]);
      UpdatesSnoc(ws, i);
    }
    assert ws[..|fragments|] == ws;
  }

  /**
    The request-line branch of `HttpRequest::new`: token 0 is the method, token 1
    the request target, split at its first `?` into path and query string, and
    token 2 the version; later tokens are skipped.
  */
  method ParseRequestLine(line: string) returns (requestMethod: string, path: string, version: string,
                                                 params: map<string, string>)
    ensures var tokens := SplitWhitespace(line);
            var (targetPath, query) := SplitTarget(TokenAt(tokens, 1));
            && requestMethod == TokenAt(tokens, 0)
            && path == targetPath
            && version == TokenAt(tokens, 2)
            && params == ParamsOf(query)
  {
    requestMethod, path, version, params := "", "", "", map[];
    var tokens := SplitWhitespace(line);
    var i := 0;
    ParamsOfEmpty();
    while i < |tokens|
      invariant i <= |tokens|
      invariant requestMethod == if 0 < i then tokens[0] else ""
      invariant version == if 2 < i then tokens[2] else ""
      invariant path == SplitTarget(if 1 < i then tokens[1] else "").0
      invariant params == ParamsOf(SplitTarget(if 1 < i then tokens[1] else "").1)
    {
      var val := tokens[i];
      match i {
        case 0 => requestMethod := val;
        case 1 =>
          var pathOption := SplitOnce(val, '?');
          var paramsString;
          match pathOption {
            case Some((p, q)) => path, paramsString := p, q;
            case None => path, paramsString := val, "";
          }
          if paramsString != "" {
            params := ParseParams(paramsString);
          }
        case 2 => version := val;
        case _ =>
      }
      i := i + 1;
    }
  }

  /**
    The header-line branch of `HttpRequest::new`: the trimmed text before and
    after the first `:`; a line without `:` is malformed and gives two empty strings.
  */
  method ParseHeaderLine(line: string) returns (key: string, value: string, malformed: bool)
    ensures (key, value) == HeaderEntry(line)
    ensures malformed <==> ':' !in line
  {
    var keyPair := SplitOnce(line, ':');
    var pair;
    match keyPair {
      case Some((k, p)) =>
        key, pair := k, p;
        malformed := false;
      case None =>
        key, pair := "", "";
        malformed := true;
    }
    key := Trim(key);
    value := Trim(pair);
  }

  /** `HttpRequest::new`, without the start timestamp it also returns. */
  method NewRequest(httpRequest: seq<string>) returns (req: HttpRequest)
    ensures req == RequestOf(httpRequest)
  {
    var requestMethod, path, host, version, connection := "", "", "", "", "";
    var accept: seq<string> := [];
    var params: map<string, string> := map[];
    var headers: map<string, string> := map[];
    var badRequest := false;
    var count := 0;

    var n := 0;
    while n < |httpRequest|
      invariant n <= |httpRequest| && count == n
      invariant Terminator !in httpRequest[..n]
      invariant HttpRequest(requestMethod, host, version, path, connection,
                            accept, params, headers, badRequest) == Processed(httpRequest[..n])
    {
      var line := httpRequest[n];
      if line == Terminator { break; }
      ghost var before := HttpRequest(requestMethod, host, version, path, connection,
                                      accept, params, headers, badRequest);

      if count == 0 {
        requestMethod, path, version, params := ParseRequestLine(line);
        assert HttpRequest(requestMethod, host, version, path, connection,
                           accept, params, headers, badRequest) == Step(before, true, line);
      } else {
        var keyClean, pairClean, malformed := ParseHeaderLine(line);
        if malformed {
          badRequest := true;
        }
        headers := headers[keyClean := pairClean];
        if keyClean == "Host" {
          host := pairClean;
        } else if keyClean == "Connection" {
          connection := pairClean;
        } else if keyClean == "Accept" {
          accept := ParseAccept(pairClean);
        }
        assert HttpRequest(requestMethod, host, version, path, connection,
                           accept, params, headers, badRequest) == Step(before, false, line);
      }
      ProcessedSnoc(httpRequest, n);
      PrefixSnoc(httpRequest, n);
      count := count + 1;
      n := n + 1;
    }
    IndexOfFirstOrNone(httpRequest, n);
    ProcessedIsFromLines(httpRequest[..n]);
    RequestOfProcessed(httpRequest);
    req := HttpRequest(requestMethod, host, version, path, connection,
                       accept, params, headers, badRequest);
  }

  /** An empty query string yields no parameters, so skipping `parse_params` for it changes nothing. */
  lemma ParamsOfEmpty()
    ensures ParamsOf("") == map[]
  {
    assert SplitOnce("", '&').None?;
    assert Split("", '&') == [""];
    assert SplitOnce("", '=').None?;
    assert Trim("") == "";
    assert [""][..0] == [];
    assert ParamWrites([""]) == [None];
    assert ParamWrites([""])[..0] == [];
  }

  /** No lines at all give the request with every field empty. */
  lemma NoLines()
    ensures FromLines([]) == HttpRequest("", "", "", "", "", [], map[], map[], false)
  {
    ParamsOfEmpty();
    assert HeaderWrites([]) == [];
  }

  /** The request line alone fills the method, path, query parameters and version. */
  lemma FromRequestLine(line: string)
    ensures var tokens := SplitWhitespace(line);
            var (path, query) := SplitTarget(TokenAt(tokens, 1));
            FromLines([line]) == HttpRequest(TokenAt(tokens, 0), "", TokenAt(tokens, 2), path, "",
                                             [], ParamsOf(query), map[], false)
  {
    assert [line][1..] == [];
    assert HeaderWrites([]) == [];
  }

  lemma HeadersSnoc(headerLines: seq<string>, line: string)
    ensures HeadersOf(headerLines + [line])
         == HeadersOf(headerLines)[HeaderEntry(line).0 := HeaderEntry(line).1]
  {
    var hs := headerLines + [line];
    assert hs[..|hs| - 1] == headerLines;
    var ws := HeaderWrites(hs);
    assert ws[..|ws| - 1] == HeaderWrites(headerLines);
  }

  lemma MalformedSnoc(headerLines: seq<string>, line: string)
    ensures HasMalformedLine(headerLines + [line]) <==> HasMalformedLine(headerLines) || ':' !in line
  {
    var hs := headerLines + [line];
    if ':' !in line { assert ':' !in hs[|headerLines|]; }
    if HasMalformedLine(headerLines) {
      var j :| 0 <= j < |headerLines| && ':' !in headerLines[j];
      assert hs[j] == headerLines[j];
    }
  }

  /** Inserting an entry into the header map updates the dedicated field of its key. */
  lemma AssembleSnoc(tokens: seq<string>, headers: map<string, string>, malformed: bool,
                     key: string, value: string, bad: bool)
    ensures var r := Assemble(tokens, headers, malformed);
            Assemble(tokens, headers[key := value], malformed || bad) == r.(
              headers := r.headers[key := value],
              host := if key == "Host" then value else r.host,
              connection := if key == "Connection" then value else r.connection,
              accept := if key == "Accept" then Split(value, ',') else r.accept,
              badRequest := r.badRequest || bad)
  {
  }

  /** A header line after the request line inserts its entry and updates the dedicated field of its key. */
  lemma FromHeaderLine(ls: seq<string>, line: string)
    requires |ls| >= 1
    ensures FromLines(ls + [line]) == Step(FromLines(ls), false, line)
  {
    assert (ls + [line])[0] == ls[0];
    assert (ls + [line])[1..] == ls[1..] + [line];
    HeadersSnoc(ls[1..], line);
    MalformedSnoc(ls[1..], line);
    var (key, value) := HeaderEntry(line);
    AssembleSnoc(SplitWhitespace(ls[0]), HeadersOf(ls[1..]), HasMalformedLine(ls[1..]), key, value, ':' !in line);
  }

  lemma InitAndLast<T>(s: seq<T>)
    requires s != []
    ensures s[..|s| - 1] + [s[|s| - 1]] == s
  {
  }

  lemma PrefixSnoc<T>(s: seq<T>, n: nat)
    requires n < |s|
    ensures s[..n + 1] == s[..n] + [s[n]]
  {
  }

  /** The loop of `NewRequest` stops exactly where `ProcessedCount` says. */
  lemma IndexOfFirstOrNone(lines: seq<string>, n: nat)
    requires n <= |lines| && Terminator !in lines[..n]
    requires n < |lines| ==> lines[n] == Terminator
    ensures ProcessedCount(lines) == n
  {
    if n < |lines| {
      IndexOfFirst(lines, Terminator, n);
    } else {
      assert lines[..n] == lines;
    }
  }
}
