/**
  What `HttpRequest::new`, `parse_params` and `parse_accept` promise, proved
  about the specification `RequestOf` that the method `NewRequest` implements.
*/
module ParserProperties {
  import opened Wrappers
  import opened StdStr
  import opened LastWrite
  import opened Parser

  // ---------------------------------------------------------------------------
  // Which lines are processed
  // ---------------------------------------------------------------------------

  /** A first line other than the terminator is processed, and counting goes on from the second line. */
  lemma ProcessedCountCons(first: string, rest: seq<string>)
    requires first != Terminator
    ensures ProcessedCount([first] + rest) == 1 + ProcessedCount(rest)
  {
    var lines := [first] + rest;
    var n := ProcessedCount(rest);
    assert lines[..n + 1] == [first] + rest[..n];
    IndexOfFirstOrNone(lines, n + 1);
  }

  /** Appending lines never un-processes a line that was processed. */
  lemma ProcessedCountAppend(lines: seq<string>, more: seq<string>)
    ensures ProcessedCount(lines) <= ProcessedCount(lines + more)
  {
    var n := ProcessedCount(lines);
    var all := lines + more;
    assert forall i :: 0 <= i < n ==> all[i] == lines[..n][i];
    if n < |lines| {
      IndexOfFirstOrNone(all, n);
    }
  }

  /** The terminator line and every line after it have no effect on the request. */
  lemma StopsAtTerminator(pre: seq<string>, post: seq<string>)
    requires Terminator !in pre
    ensures RequestOf(pre + [Terminator] + post) == RequestOf(pre)
  {
    var lines := pre + [Terminator] + post;
    assert lines[..|pre|] == pre;
    IndexOfFirstOrNone(lines, |pre|);
    assert pre[..|pre|] == pre;
    IndexOfFirstOrNone(pre, |pre|);
  }

  /** No lines, or a terminator first, give a request with every field empty that is not bad. */
  lemma EmptyOrTerminated(lines: seq<string>)
    requires lines == [] || lines[0] == Terminator
    ensures var r := RequestOf(lines);
            && r.requestMethod == "" && r.path == "" && r.version == ""
            && r.host == "" && r.connection == "" && r.accept == []
            && r.params == map[] && r.headers == map[] && !r.badRequest
  {
    if lines != [] {
      IndexOfFirstOrNone(lines, 0);
    }
    NoLines();
  }

  /** A request is its first line's tokens assembled with the processed lines after it. */
  lemma RequestOfCons(first: string, rest: seq<string>)
    requires first != Terminator
    ensures var hs := rest[..ProcessedCount(rest)];
            RequestOf([first] + rest) == Assemble(SplitWhitespace(first), HeadersOf(hs), HasMalformedLine(hs))
  {
    ProcessedCountCons(first, rest);
    var lines := [first] + rest;
    var n := ProcessedCount(rest);
    assert HeaderLinesOf(lines) == rest[..n];
  }

  // ---------------------------------------------------------------------------
  // The request line
  // ---------------------------------------------------------------------------

  /** A line with at least one token is never the terminator, which is whitespace only. */
  lemma LayoutNotTerminator(tokens: seq<string>, gaps: seq<string>)
    requires IsLayout(tokens, gaps) && tokens != []
    ensures Layout(tokens, gaps) != Terminator
  {
    if Layout(tokens, gaps) == Terminator {
      SplitWhitespaceLayout(tokens, gaps);
      SplitWhitespaceBlank(Terminator);
    }
  }

  /**
    A request line made of tokens with any whitespace around and between them
    (spaces, tabs, a trailing "\r\n") yields the method from token 0, the path
    and query from token 1 and the version from token 2; a missing token leaves
    its field "".
  */
  lemma RequestLineByPosition(tokens: seq<string>, gaps: seq<string>, rest: seq<string>)
    requires IsLayout(tokens, gaps)
    ensures var r := RequestOf([Layout(tokens, gaps)] + rest);
            var (path, query) := SplitTarget(TokenAt(tokens, 1));
            && r.requestMethod == TokenAt(tokens, 0)
            && r.path == path
            && r.params == ParamsOf(query)
            && r.version == TokenAt(tokens, 2)
  {
    var line := Layout(tokens, gaps);
    SplitWhitespaceLayout(tokens, gaps);
    if line == Terminator {
      SplitWhitespaceBlank(Terminator);
      EmptyOrTerminated([line] + rest);
      ParamsOfEmpty();
    } else {
      RequestOfCons(line, rest);
    }
  }

  /** The usual request line, ending in "\r\n", is read by position. */
  lemma UsualRequestLine(rest: seq<string>)
    ensures var r := RequestOf(["GET /x?a=1 HTTP/1.1\r\n"] + rest);
            && r.requestMethod == "GET" && r.path == "/x"
            && r.version == "HTTP/1.1" && r.params == ParamsOf("a=1")
  {
    var tokens, gaps := UsualLayout();
    UsualTarget();
    RequestLineByPosition(tokens, gaps, rest);
  }

  lemma UsualLayout() returns (tokens: seq<string>, gaps: seq<string>)
    ensures tokens == ["GET", "/x?a=1", "HTTP/1.1"]
    ensures IsLayout(tokens, gaps) && Layout(tokens, gaps) == "GET /x?a=1 HTTP/1.1\r\n"
  {
    tokens, gaps := ["GET", "/x?a=1", "HTTP/1.1"], ["", " ", " ", "\r\n"];
    UsualTokens();
    assert AllWhitespace(gaps[1]) && AllWhitespace(gaps[3]);
    assert IsLayout(tokens, gaps);
    UsualLayoutText(tokens, gaps);
  }

  lemma UsualTokens()
    ensures HasNoWhitespace("GET") && HasNoWhitespace("/x?a=1") && HasNoWhitespace("HTTP/1.1")
  {
  }

  lemma UsualLayoutText(tokens: seq<string>, gaps: seq<string>)
    requires tokens == ["GET", "/x?a=1", "HTTP/1.1"] && gaps == ["", " ", " ", "\r\n"]
    ensures Layout(tokens, gaps) == "GET /x?a=1 HTTP/1.1\r\n"
  {
    assert Layout(tokens[3..], gaps[3..]) == "\r\n";
    assert Layout(tokens[2..], gaps[2..]) == " HTTP/1.1\r\n";
    assert Layout(tokens[1..], gaps[1..]) == " /x?a=1 HTTP/1.1\r\n";
  }

  lemma UsualTarget()
    ensures SplitTarget("/x?a=1") == ("/x", "a=1")
  {
    SplitOnceUnique("/x", '?', "a=1");
    assert "/x?a=1" == "/x" + "?" + "a=1";
  }

  /** Only the first three tokens of the request line enter the request. */
  lemma AssembleFirstThree(tokens: seq<string>, tokens': seq<string>, headers: map<string, string>, malformed: bool)
    requires forall i :: 0 <= i < 3 ==> TokenAt(tokens, i) == TokenAt(tokens', i)
    ensures Assemble(tokens, headers, malformed) == Assemble(tokens', headers, malformed)
  {
    assert TokenAt(tokens, 0) == TokenAt(tokens', 0);
    assert TokenAt(tokens, 1) == TokenAt(tokens', 1);
    assert TokenAt(tokens, 2) == TokenAt(tokens', 2);
  }

  /** Tokens after the third one change nothing in the request, whatever whitespace separates them. */
  lemma ExtraTokensIgnored(tokens: seq<string>, extra: seq<string>, gaps: seq<string>, gaps': seq<string>,
                           rest: seq<string>)
    requires |tokens| == 3
    requires IsLayout(tokens + extra, gaps) && IsLayout(tokens, gaps')
    ensures RequestOf([Layout(tokens + extra, gaps)] + rest) == RequestOf([Layout(tokens, gaps')] + rest)
  {
    var all := tokens + extra;
    assert forall i :: 0 <= i < 3 ==> all[i] == tokens[i];
    LayoutNotTerminator(tokens, gaps');
    LayoutNotTerminator(all, gaps);
    RequestOfCons(Layout(tokens, gaps'), rest);
    RequestOfCons(Layout(all, gaps), rest);
    SplitWhitespaceLayout(tokens, gaps');
    SplitWhitespaceLayout(all, gaps);
    var hs := rest[..ProcessedCount(rest)];
    AssembleFirstThree(all, tokens, HeadersOf(hs), HasMalformedLine(hs));
  }

  // ---------------------------------------------------------------------------
  // The bad-request flag
  // ---------------------------------------------------------------------------

  /** Some header line has no `:` exactly when some processed line after the first has none. */
  lemma BadRequestIff(lines: seq<string>)
    ensures RequestOf(lines).badRequest
        <==> exists j :: 1 <= j < ProcessedCount(lines) && ':' !in lines[j]
  {
    MalformedHeaderLines(lines);
  }

  lemma MalformedHeaderLines(lines: seq<string>)
    ensures HasMalformedLine(HeaderLinesOf(lines))
        <==> exists j :: 1 <= j < ProcessedCount(lines) && ':' !in lines[j]
  {
    var hs := HeaderLinesOf(lines);
    if HasMalformedLine(hs) {
      var j :| 0 <= j < |hs| && ':' !in hs[j];
      HeaderLineAt(lines, j);
    }
    if j :| 1 <= j < ProcessedCount(lines) && ':' !in lines[j] {
      HeaderLineAt(lines, j - 1);
    }
  }

  /** Nothing resets the flag: more lines never turn a bad request into a good one. */
  lemma BadRequestSticky(lines: seq<string>, more: seq<string>)
    requires RequestOf(lines).badRequest
    ensures RequestOf(lines + more).badRequest
  {
    BadRequestIff(lines);
    BadRequestIff(lines + more);
    ProcessedCountAppend(lines, more);
    var j :| 1 <= j < ProcessedCount(lines) && ':' !in lines[j];
    AppendIndex(lines, more, j);
  }

  lemma AppendIndex<T>(s: seq<T>, t: seq<T>, j: nat)
    requires j < |s|
    ensures (s + t)[j] == s[j]
  {
  }

  /** A line without `:` is stored as the entry "" -> "". */
  lemma MalformedLineEntry(line: string)
    requires ':' !in line
    ensures HeaderEntry(line) == ("", "")
  {
  }

  /** A bad request always has the empty name among its headers. */
  lemma BadRequestHasEmptyName(lines: seq<string>)
    requires RequestOf(lines).badRequest
    ensures "" in RequestOf(lines).headers
  {
    var hs := HeaderLinesOf(lines);
    assert RequestOf(lines).badRequest == HasMalformedLine(hs);
    var j :| 0 <= j < |hs| && ':' !in hs[j];
    HeaderNamesOf(hs);
  }

  // ---------------------------------------------------------------------------
  // The header map
  // ---------------------------------------------------------------------------

  /** The entry a header line stores: the trimmed text around its first `:`; the value may hold more `:`s. */
  lemma HeaderLineEntry(name: string, value: string)
    requires ':' !in name
    ensures HeaderEntry(name + ":" + value) == (Trim(name), Trim(value))
  {
    SplitOnceUnique(name, ':', value);
  }

  /** Over header lines: the keys are the lines' names, and each value is the value of one of them. */
  lemma HeaderNamesOf(headerLines: seq<string>)
    ensures forall i :: 0 <= i < |headerLines| ==> HeaderEntry(headerLines[i]).0 in HeadersOf(headerLines)
    ensures forall k :: k in HeadersOf(headerLines) ==>
              exists i :: 0 <= i < |headerLines| && HeaderEntry(headerLines[i]) == (k, HeadersOf(headerLines)[k])
  {
    var ws := HeaderWrites(headerLines);
    UpdatesKeys(ws);
    HeaderWritesAt(headerLines);
    assert forall i :: 0 <= i < |headerLines| ==> ws[i] == Some(HeaderEntry(headerLines[i]));
  }

  /** Over header lines: the last line with a given name decides its value. */
  lemma HeaderLastWinsOf(headerLines: seq<string>, i: nat, name: string, value: string)
    requires i < |headerLines| && HeaderEntry(headerLines[i]) == (name, value)
    requires forall l :: i < l < |headerLines| ==> HeaderEntry(headerLines[l]).0 != name
    ensures name in HeadersOf(headerLines) && HeadersOf(headerLines)[name] == value
  {
    var ws := HeaderWrites(headerLines);
    HeaderWritesAt(headerLines);
    forall l | i < l < |ws| ensures !WritesKey(ws, l, name) {
      assert ws[l] == Some(HeaderEntry(headerLines[l]));
    }
    UpdatesLastWins(ws, i);
  }

  /** The header map of a request is built from its header lines, the processed lines after the first. */
  lemma HeaderKeys(lines: seq<string>)
    ensures var hs := HeaderLinesOf(lines);
            var m := RequestOf(lines).headers;
            && (forall i :: 0 <= i < |hs| ==> HeaderEntry(hs[i]).0 in m)
            && (forall k :: k in m ==> exists i :: 0 <= i < |hs| && HeaderEntry(hs[i]) == (k, m[k]))
  {
    HeaderNamesOf(HeaderLinesOf(lines));
  }

  /** The last header line with a given name decides its value: later duplicates overwrite. */
  lemma HeaderLastWins(lines: seq<string>, i: nat)
    requires i < |HeaderLinesOf(lines)|
    requires var hs := HeaderLinesOf(lines);
             forall l :: i < l < |hs| ==> HeaderEntry(hs[l]).0 != HeaderEntry(hs[i]).0
    ensures var (name, value) := HeaderEntry(HeaderLinesOf(lines)[i]);
            name in RequestOf(lines).headers && RequestOf(lines).headers[name] == value
  {
    var hs := HeaderLinesOf(lines);
    var (name, value) := HeaderEntry(hs[i]);
    HeaderLastWinsOf(hs, i, name, value);
  }

  // ---------------------------------------------------------------------------
  // Host, Connection and Accept
  // ---------------------------------------------------------------------------

  /** `host`, `connection` and `accept` come from the last header line with that exact name. */
  lemma DedicatedFromLastLine(lines: seq<string>, i: nat)
    requires i < |HeaderLinesOf(lines)|
    requires var hs := HeaderLinesOf(lines);
             forall l :: i < l < |hs| ==> HeaderEntry(hs[l]).0 != HeaderEntry(hs[i]).0
    ensures var (name, value) := HeaderEntry(HeaderLinesOf(lines)[i]);
            var r := RequestOf(lines);
            && (name == "Host" ==> r.host == value)
            && (name == "Connection" ==> r.connection == value)
            && (name == "Accept" ==> r.accept == Split(value, ','))
  {
    HeaderLastWins(lines, i);
  }

  /** Without a header line of that exact name, the field keeps its empty value. */
  lemma DedicatedAbsent(lines: seq<string>, name: string)
    requires name == "Host" || name == "Connection" || name == "Accept"
    requires var hs := HeaderLinesOf(lines);
             forall i :: 0 <= i < |hs| ==> HeaderEntry(hs[i]).0 != name
    ensures var r := RequestOf(lines);
            && (name == "Host" ==> r.host == "")
            && (name == "Connection" ==> r.connection == "")
            && (name == "Accept" ==> r.accept == [])
  {
    HeaderKeys(lines);
  }

  /** Header names are compared case-sensitively: a line named `host` leaves `host` empty. */
  lemma LowerCaseHostIgnored(requestLine: string, value: string)
    requires requestLine != Terminator
    ensures RequestOf([requestLine, "host" + ":" + value]).host == ""
  {
    SingleHeaderNamed(requestLine, "host", value);
    HostAbsentFromOnlyLine([requestLine, "host" + ":" + value], "host" + ":" + value);
  }

  lemma HostAbsentFromOnlyLine(lines: seq<string>, header: string)
    requires HeaderLinesOf(lines) == [header] && HeaderEntry(header).0 != "Host"
    ensures RequestOf(lines).host == ""
  {
    HeadersOfOne(header);
  }

  lemma HeadersOfOne(header: string)
    ensures HeadersOf([header]) == map[HeaderEntry(header).0 := HeaderEntry(header).1]
  {
    assert [header][..0] == [];
    assert HeaderWrites([header]) == [Some(HeaderEntry(header))];
    UpdatesOne(HeaderEntry(header).0, HeaderEntry(header).1);
  }

  lemma UpdatesOne<K, V>(k: K, v: V)
    ensures Updates([Some((k, v))]) == map[k := v]
  {
    assert [Some((k, v))][..0] == [];
  }

  /** A trimmed name is stored exactly as written, letter case included. */
  lemma HeaderNameKept(name: string, value: string)
    requires IsTrimmed(name) && ':' !in name
    ensures HeaderEntry(name + ":" + value).0 == name
  {
    HeaderLineEntry(name, value);
    TrimmedIsFixed(name);
  }

  /** A request line followed by one `name:value` line has that line as its only header line. */
  lemma SingleHeaderNamed(requestLine: string, name: string, value: string)
    requires requestLine != Terminator
    requires name != "" && IsTrimmed(name) && ':' !in name
    ensures HeaderLinesOf([requestLine, name + ":" + value]) == [name + ":" + value]
    ensures HeaderEntry(name + ":" + value).0 == name
  {
    var header := name + ":" + value;
    assert header[0] == name[0];
    OnlyHeaderLine(requestLine, header);
    HeaderNameKept(name, value);
  }

  /** In a two-line request of two non-terminator lines, the second line is the one header line. */
  lemma OnlyHeaderLine(requestLine: string, header: string)
    requires requestLine != Terminator && header != Terminator
    ensures HeaderLinesOf([requestLine, header]) == [header]
  {
    assert [requestLine] + [header] == [requestLine, header];
    assert [header] + [] == [header];
    ProcessedCountCons(requestLine, [header]);
    ProcessedCountCons(header, []);
  }

  // ---------------------------------------------------------------------------
  // parse_params
  // ---------------------------------------------------------------------------

  /** A `key=value` fragment is kept, trimmed, when both trimmed sides are non-empty; the value may hold `=`. */
  lemma ParamKept(key: string, value: string)
    requires '=' !in key
    requires Trim(key) != "" && Trim(value) != ""
    ensures ParamEntry(key + "=" + value) == Some((Trim(key), Trim(value)))
  {
    SplitOnceUnique(key, '=', value);
  }

  /** A fragment whose trimmed key or value is empty is dropped. */
  lemma ParamDropped(key: string, value: string)
    requires '=' !in key
    requires Trim(key) == "" || Trim(value) == ""
    ensures ParamEntry(key + "=" + value) == None
  {
    SplitOnceUnique(key, '=', value);
  }

  /** The keys of the parameter map are exactly the keys of the kept fragments, each with the value of one of them. */
  lemma ParamKeys(query: string)
    ensures var fs := Split(query, '&');
            var m := ParamsOf(query);
            && (forall j :: 0 <= j < |fs| && ParamEntry(fs[j]).Some? ==> ParamEntry(fs[j]).value.0 in m)
            && (forall k :: k in m ==> exists j :: 0 <= j < |fs| && ParamEntry(fs[j]) == Some((k, m[k])))
  {
    var fs := Split(query, '&');
    assert ParamsOf(query) == Updates(ParamWrites(fs));
    ParamNamesOf(fs);
  }

  /** Over the fragments: every kept fragment's key is in the map, and every entry comes from a kept fragment. */
  lemma ParamNamesOf(fragments: seq<string>)
    ensures var m := Updates(ParamWrites(fragments));
            && (forall j :: 0 <= j < |fragments| && ParamEntry(fragments[j]).Some? ==> ParamEntry(fragments[j]).value.0 in m)
            && (forall k :: k in m ==> exists j :: 0 <= j < |fragments| && ParamEntry(fragments[j]) == Some((k, m[k])))
  {
    var ws := ParamWrites(fragments);
    UpdatesKeys(ws);
    ParamWritesAt(fragments);
  }

  /** When a key repeats, the last fragment that keeps it decides its value. */
  lemma ParamsLastWins(query: string, j: nat)
    requires j < |Split(query, '&')| && ParamEntry(Split(query, '&')[j]).Some?
    requires forall l :: j < l < |Split(query, '&')| && ParamEntry(Split(query, '&')[l]).Some? ==>
               ParamEntry(Split(query, '&')[l]).value.0 != ParamEntry(Split(query, '&')[j]).value.0
    ensures var (k, v) := ParamEntry(Split(query, '&')[j]).value;
            k in ParamsOf(query) && ParamsOf(query)[k] == v
  {
    ParamWritesLastWins(Split(query, '&'), j);
  }

  lemma ParamWritesLastWins(fragments: seq<string>, j: nat)
    requires j < |fragments| && ParamEntry(fragments[j]).Some?
    requires forall l :: j < l < |fragments| && ParamEntry(fragments[l]).Some? ==>
               ParamEntry(fragments[l]).value.0 != ParamEntry(fragments[j]).value.0
    ensures var (k, v) := ParamEntry(fragments[j]).value;
            var m := Updates(ParamWrites(fragments));
            k in m && m[k] == v
  {
    var ws := ParamWrites(fragments);
    ParamWritesAt(fragments);
    forall l | j < l < |ws| ensures !WritesKey(ws, l, ws[j].value.0) {
    }
    UpdatesLastWins(ws, j);
  }

  /** Query text with neither `=` nor `&`, non-empty and trimmed. */
  predicate PlainParamText(s: string) {
    s != "" && IsTrimmed(s) && '=' !in s && '&' !in s
  }

  /** A query of two fragments performs their two writes in order. */
  lemma ParamsOfPair(first: string, second: string)
    requires '&' !in first && '&' !in second
    ensures ParamsOf(first + "&" + second) == Updates([ParamEntry(first), ParamEntry(second)])
  {
    assert first + "&" + second == first + ['&'] + second;
    SplitPair(first, '&', second);
    ParamWritesPair(first, second);
  }

  lemma ParamWritesPair(first: string, second: string)
    ensures ParamWrites([first, second]) == [ParamEntry(first), ParamEntry(second)]
  {
    ParamWritesAt([first, second]);
    PairOf(ParamWrites([first, second]), ParamEntry(first), ParamEntry(second));
  }

  /** A sequence of length two is the display of its two elements. */
  lemma PairOf<T>(s: seq<T>, a: T, b: T)
    requires |s| == 2 && s[0] == a && s[1] == b
    ensures s == [a, b]
  {
  }

  lemma UpdatesBothWritten<K, V>(a: K, x: V, b: K, y: V)
    ensures Updates([Some((a, x)), Some((b, y))]) == map[a := x][b := y]
  {
    var ws := [Some((a, x)), Some((b, y))];
    assert ws[..1] == [Some((a, x))] && ws[..1][..0] == [];
    assert Updates(ws[..1]) == map[a := x];
  }

  lemma UpdatesSecondWritten<K, V>(b: K, y: V)
    ensures Updates([None, Some((b, y))]) == map[b := y]
  {
    var ws: seq<Option<(K, V)>> := [None, Some((b, y))];
    assert ws[..1] == [None] && ws[..1][..0] == [];
    assert Updates(ws[..1]) == map[];
  }

  lemma KeptPlain(key: string, value: string)
    requires PlainParamText(key) && PlainParamText(value)
    ensures ParamEntry(key + "=" + value) == Some((key, value))
    ensures '&' !in key + "=" + value
  {
    TrimmedIsFixed(key);
    TrimmedIsFixed(value);
    ParamKept(key, value);
  }

  /** `a=x&b=y` gives `{a: x, b: y}` (for `?a=1&b=2`, `{a: 1, b: 2}`). */
  lemma TwoParams(a: string, x: string, b: string, y: string)
    requires PlainParamText(a) && PlainParamText(x) && PlainParamText(b) && PlainParamText(y)
    ensures ParamsOf(a + "=" + x + "&" + b + "=" + y) == map[a := x][b := y]
  {
    var first, second := a + "=" + x, b + "=" + y;
    assert a + "=" + x + "&" + b + "=" + y == first + "&" + second;
    KeptPlain(a, x);
    KeptPlain(b, y);
    ParamsOfPair(first, second);
    UpdatesBothWritten(a, x, b, y);
  }

  /** `a=&b=y` gives `{b: y}`: the pair with an empty value is dropped (for `?a=&b=2`, `{b: 2}`). */
  lemma EmptyValueDropped(a: string, b: string, y: string)
    requires PlainParamText(a) && PlainParamText(b) && PlainParamText(y)
    ensures ParamsOf(a + "=&" + b + "=" + y) == map[b := y]
  {
    var first, second := a + "=", b + "=" + y;
    assert a + "=&" + b + "=" + y == first + "&" + second;
    assert first == a + "=" + "";
    ParamDropped(a, "");
    KeptPlain(b, y);
    ParamsOfPair(first, second);
    UpdatesSecondWritten(b, y);
  }

  // ---------------------------------------------------------------------------
  // parse_accept
  // ---------------------------------------------------------------------------

  /**
    Text with one separator splits into the two sides exactly as they are, so
    `Accept: text/html, application/json` keeps the leading space of its second fragment.
  */
  lemma SplitPair(a: string, sep: char, b: string)
    requires sep !in a && sep !in b
    ensures Split(a + [sep] + b, sep) == [a, b]
  {
    SplitOnceUnique(a, sep, b);
    assert SplitOnce(b, sep).None?;
  }
}
