# Request-head parser of jwhttp, in Dafny

This project models the HTTP request-head parser of `src/parser.rs`. It has three parts:

- `HttpRequest::new` takes the raw lines of one request head and builds an `HttpRequest`.
- `parse_params` turns the query string into a parameter map.
- `parse_accept` splits the `Accept` header value on commas.

The parser reads lines until the first line equal to `"\r\n"`.

- The first line is the request line. Its whitespace-separated tokens 0, 1 and 2 give the method, the request target and the version.
- The target is split at its first `?` into the path and the query string.
- Every later line is split at its first `:`. The trimmed name and value go into the header map, and a later duplicate name overwrites an earlier one.
- The names `Host`, `Connection` and `Accept` also fill their own fields. The match is exact and case-sensitive.
- A line with no `:` marks the request bad and stores the entry `"" -> ""`.

The model is arranged as follows:

- `wrappers.dfy`: the `Option` type.
- `std_str.dfy`: the parts of Rust's `str` API that the parser uses, as pure functions over `string`:
  - `split_once`, `split`, `trim` and `split_whitespace`, which `src/parser.rs` calls;
  - `find`, `trim_start` and `trim_end`, the building blocks they are defined with;
  - `Join`, the inverse of `Split`;
  - `Layout`, a line written as tokens with whitespace gaps around them, which pins down what `split_whitespace` returns.
- `last_write.dfy`: a `HashMap` filled by a series of `insert` calls.
  - It is written as `Updates(ws)`, the map a write log leaves behind.
  - Its lemmas say which keys end up in the map and that the last write to a key wins.
- `parser.dfy`:
  - the `HttpRequest` datatype;
  - the specification functions: `RequestOf` is the request a list of lines describes, and `Processed` is the same request built one line at a time with `Step`;
  - the operations as methods with the loops of the source: `NewRequest`, `ParseParams` and `ParseAccept`;
  - the two branches of the `new` loop body, written as the methods `ParseRequestLine` and `ParseHeaderLine`.

  Each method's postcondition ties its result to the specification functions.
- `parser_properties.dfy`: the properties of the specification:
  - the terminator;
  - request-line tokens by position;
  - the bad-request flag;
  - last-write-wins headers and parameters;
  - the dedicated `host`/`connection`/`accept` fields;
  - the `Accept` split/join round trip.

## Model

| member | source | states |
|---|---|---|
| StdStr.IndexOf | src/parser.rs:41 | finds the first occurrence: none exactly when the character is absent, otherwise an index holding it with no earlier occurrence |
| StdStr.IndexOfFirst | src/parser.rs:41 | any index holding the character with none before it is the one found |
| StdStr.SplitOnce | src/parser.rs:61 | `split_once`: `None` exactly when the separator is absent; otherwise the text is `before + sep + after`, and `before` has no separator |
| StdStr.SplitOnceUnique | src/parser.rs:107 | splitting `a + sep + b` with a separator-free `a` gives back exactly `(a, b)` |
| StdStr.Split | src/parser.rs:126 | `split` gives at least one fragment, and no fragment contains the separator |
| StdStr.JoinSplit | src/parser.rs:124-133 | joining the fragments of a split with the separator gives back the original text |
| StdStr.SplitJoin | src/parser.rs:124-133 | splitting a join of separator-free fragments gives back the fragments |
| StdStr.SplitCount | src/parser.rs:124-133 | a split has exactly one fragment more than there are separators in the text |
| StdStr.TrimStart | src/parser.rs:71 | the result is no longer than the input and does not start with whitespace |
| StdStr.TrimStartDropsWhitespace | src/parser.rs:71 | `trim_start` removes only leading whitespace and keeps the rest unchanged, as a suffix |
| StdStr.TrimEnd | src/parser.rs:72 | the result is no longer than the input and does not end with whitespace |
| StdStr.TrimEndDropsWhitespace | src/parser.rs:72 | `trim_end` removes only trailing whitespace and keeps the rest unchanged, as a prefix |
| StdStr.Trim | src/parser.rs:71-72 | the trimmed text has whitespace at neither end |
| StdStr.TrimEmpty | src/parser.rs:113-116 | trimming leaves nothing exactly when the text is all whitespace, in both directions |
| StdStr.TrimmedIsFixed | src/parser.rs:113-114 | text that is already trimmed is unchanged by `trim`, so trimming is idempotent |
| StdStr.TokenEnd | src/parser.rs:37 | the leading run before the first whitespace has no whitespace, and is followed by whitespace or the end |
| StdStr.SplitWhitespace | src/parser.rs:37 | `split_whitespace` gives only non-empty tokens without whitespace |
| StdStr.TokenEndOfToken | src/parser.rs:37 | a whitespace-free token followed by whitespace or the end is exactly the leading run |
| StdStr.IsWhitespace | src/parser.rs:37 | definition, no contract: the ASCII part of Rust's `char::is_whitespace` (space, tab, line feed, vertical tab, form feed, carriage return), the whitespace that `split_whitespace` and `trim` remove |
| StdStr.AllWhitespace | src/parser.rs:37 | definition, no contract: text made only of whitespace |
| StdStr.Layout | src/parser.rs:37 | definition, no contract: tokens written out with a whitespace gap before the first, between each two, and after the last |
| StdStr.IsLayout | src/parser.rs:37 | definition, no contract: the tokens are non-empty without whitespace, the gaps are whitespace, and each inner gap is non-empty |
| StdStr.TrimStartSkip | src/parser.rs:37 | `trim_start` goes through any leading whitespace |
| StdStr.SplitWhitespaceSkip | src/parser.rs:37 | leading whitespace of any kind and length does not change the tokens |
| StdStr.SplitWhitespaceBlank | src/parser.rs:37 | text of whitespace only, such as `"\r\n"`, has no tokens |
| StdStr.SplitWhitespaceToken | src/parser.rs:37 | a token followed by whitespace, or by the end, is the first token, and the tokens of the rest follow |
| StdStr.SplitWhitespaceLayout | src/parser.rs:37 | every layout splits back into its own tokens, whatever whitespace (runs of spaces, tabs, a trailing `"\r\n"`) surrounds them |
| StdStr.GapsOf | src/parser.rs:37 | there is one gap more than `split_whitespace` finds tokens |
| StdStr.LayoutOfSplitWhitespace | src/parser.rs:37 | every text is the layout of its own `split_whitespace` tokens with the gaps between them, so with `SplitWhitespaceLayout` the tokens are exactly the maximal non-whitespace runs, in order |
| LastWrite.Updates | src/parser.rs:74 | definition, no contract: the map a series of `insert` calls leaves, one write-log entry per loop step |
| LastWrite.UpdatesKeys | src/parser.rs:74 | every key written is in the map, and every entry of the map was written by some step |
| LastWrite.UpdatesSnoc | src/parser.rs:117 | one more step updates the map with its write, or leaves the map alone when it writes nothing |
| LastWrite.UpdatesLastWins | src/parser.rs:74 | a key holds the value of the last write to it |
| Parser.TokenAt | src/parser.rs:37-58 | definition, no contract: token `i` of the request line, or `""` when the line has fewer tokens, as a field the `match` never assigns keeps its initial `""` |
| Parser.Lookup | src/parser.rs:76-78 | definition, no contract: the value stored under a key, or `""` |
| Parser.HasMalformedLine | src/parser.rs:63-69 | definition, no contract: some header line has no `:` |
| Parser.HeadersOf | src/parser.rs:74 | definition, no contract: the header map the header lines leave, by `Updates` of their write log |
| Parser.Assemble | src/parser.rs:76-95 | definition, no contract: the request built from the request-line tokens, the header map and the flag; `host`, `connection` and `accept` are read from the map under the exact names `Host`, `Connection` and `Accept` |
| Parser.FromLines | src/parser.rs:33-95 | definition, no contract: the request described by a list of processed lines, the first being the request line |
| Parser.Step | src/parser.rs:36-82 | definition, no contract: one pass of the loop body, the request-line branch for the first line and the header branch for every later one |
| Parser.Processed | src/parser.rs:33-84 | definition, no contract: the request the loop has built after the given lines, by `Step` from the all-empty request |
| Parser.RequestOf | src/parser.rs:19-97 | definition, no contract: the request `HttpRequest::new` returns, assembled from the processed lines |
| Parser.ProcessedCount | src/parser.rs:33-34 | the processed lines are those before the first `"\r\n"` line; the count stops at that line or at the end |
| Parser.SplitTarget | src/parser.rs:41-51 | with a `?`: the target is `path + "?" + query`, and the path has no `?`; without one: the whole target and an empty query |
| Parser.ParamEntry | src/parser.rs:107-118 | a kept fragment gives a non-empty trimmed key and value; a fragment without `=` is dropped |
| Parser.ParamWrites | src/parser.rs:106-119 | one write-log entry per `&` fragment |
| Parser.ParamWritesAt | src/parser.rs:106-119 | entry `j` of the log is the insertion fragment `j` makes |
| Parser.ParamsOf | src/parser.rs:101-122 | every key and every value in the parameter map is non-empty and trimmed |
| Parser.HeaderEntry | src/parser.rs:61-72 | key and value are trimmed; a line without `:` gives `("", "")` |
| Parser.HeaderWrites | src/parser.rs:74 | one write-log entry per header line |
| Parser.HeaderWritesAt | src/parser.rs:61-74 | entry `j` of the log inserts the trimmed entry of header line `j` |
| Parser.HeaderLinesOf | src/parser.rs:33-36 | there are as many header lines as processed lines after the request line, and none when no line is processed |
| Parser.HeaderLineAt | src/parser.rs:60-61 | header line `l` is line `l + 1` of the input |
| Parser.ProcessedSnoc | src/parser.rs:33-84 | processing one more line applies `Step` to the request built so far |
| Parser.ProcessedIsFromLines | src/parser.rs:19-97 | the request built line by line equals the request described by the whole list of processed lines |
| Parser.ProcessedRequestLine | src/parser.rs:36-58 | processing the request line alone gives the request it describes |
| Parser.ProcessedHeaderLine | src/parser.rs:60-82 | processing one more header line keeps the line-by-line request equal to the described one |
| Parser.ProcessedAppend | src/parser.rs:60-83 | a line after the first is processed as a header line |
| Parser.RequestOfProcessed | src/parser.rs:33-34 | the request depends only on the lines before the first `"\r\n"` |
| Parser.ParseAccept | src/parser.rs:124-133 | `parse_accept`: the result is the comma split, with one element more than there are commas and no comma in any element; joining it with `,` gives back the input |
| Parser.ParseParams | src/parser.rs:101-122 | `parse_params`: the loop's map is the last-write-wins map of the kept `key=value` fragments |
| Parser.ParseRequestLine | src/parser.rs:36-58 | method is token 0, version token 2, path and params come from token 1 split at its first `?`; missing tokens leave `""` |
| Parser.ParseHeaderLine | src/parser.rs:61-72 | key and value are the trimmed entry of the line; the line is malformed exactly when it has no `:` |
| Parser.NewRequest | src/parser.rs:19-97 | `HttpRequest::new`: the loop's result is the request the input lines describe |
| Parser.ParamsOfEmpty | src/parser.rs:52-54 | an empty query gives no parameters, so skipping `parse_params` for it changes nothing |
| Parser.NoLines | src/parser.rs:20-28 | no processed line gives every field empty and the request not bad |
| Parser.FromRequestLine | src/parser.rs:36-58 | the request line alone fills method, path, parameters and version, and nothing else |
| Parser.HeadersSnoc | src/parser.rs:74 | one more header line inserts its entry into the header map |
| Parser.MalformedSnoc | src/parser.rs:63-69 | after one more line, some line lacks `:` exactly when the new line lacks it or an earlier one did |
| Parser.AssembleSnoc | src/parser.rs:74-81 | inserting an entry into the header map updates `host`, `connection` or `accept` exactly when the key is that name |
| Parser.FromHeaderLine | src/parser.rs:60-82 | a header line after the request line changes the request as one header `Step` |
| Parser.IndexOfFirstOrNone | src/parser.rs:33-34 | the loop stops exactly at the first `"\r\n"` line, or at the end |
| ParserProperties.ProcessedCountCons | src/parser.rs:33-34 | a non-terminator first line is processed, and counting goes on from the second line |
| ParserProperties.ProcessedCountAppend | src/parser.rs:33-34 | appending lines never un-processes a processed line |
| ParserProperties.StopsAtTerminator | src/parser.rs:33-34 | the `"\r\n"` line and every line after it have no effect on the request |
| ParserProperties.EmptyOrTerminated | src/parser.rs:20-28 | no lines, or a terminator first, give all fields empty and the request not bad |
| ParserProperties.RequestOfCons | src/parser.rs:33-82 | a request is its first line's tokens assembled with the processed lines after it |
| ParserProperties.LayoutNotTerminator | src/parser.rs:34 | a line with at least one token is never the terminator |
| ParserProperties.RequestLineByPosition | src/parser.rs:36-58 | for a request line with any whitespace around and between its tokens, method is token 0, version token 2, path and params come from token 1, and missing tokens leave `""` |
| ParserProperties.UsualRequestLine | src/parser.rs:36-58 | `GET /x?a=1 HTTP/1.1\r\n`, with its line ending, gives method `GET`, path `/x`, version `HTTP/1.1` and the params of `a=1` |
| ParserProperties.UsualLayout | src/parser.rs:37 | `GET /x?a=1 HTTP/1.1\r\n` is the layout of its three tokens |
| ParserProperties.UsualTarget | src/parser.rs:41-45 | `/x?a=1` splits into path `/x` and query `a=1` |
| ParserProperties.AssembleFirstThree | src/parser.rs:57 | only the first three request-line tokens enter the request |
| ParserProperties.ExtraTokensIgnored | src/parser.rs:57 | a request line with tokens after the third gives the same request as one with only the first three, whatever whitespace separates them |
| ParserProperties.BadRequestIff | src/parser.rs:63-69 | `bad_request` holds exactly when some processed line after the first has no `:` |
| ParserProperties.MalformedHeaderLines | src/parser.rs:63-69 | some header line lacks `:` exactly when some processed input line from index 1 on lacks it |
| ParserProperties.BadRequestSticky | src/parser.rs:66 | nothing resets the flag: more lines never turn a bad request into a good one |
| ParserProperties.MalformedLineEntry | src/parser.rs:65-74 | a line without `:` is stored as the entry `"" -> ""` |
| ParserProperties.BadRequestHasEmptyName | src/parser.rs:65-74 | a bad request always has the empty name among its headers |
| ParserProperties.HeaderLineEntry | src/parser.rs:61-72 | a `name:value` line stores the trimmed name and the trimmed value, and the value may contain `:` |
| ParserProperties.HeaderNamesOf | src/parser.rs:74 | over the header lines: every line's name is a key, and every entry comes from some line |
| ParserProperties.HeaderLastWinsOf | src/parser.rs:74 | over the header lines: the last line with a name decides its value |
| ParserProperties.HeaderKeys | src/parser.rs:61-74 | the keys of `headers` are exactly the names of the processed header lines, each with the value of one of them |
| ParserProperties.HeaderLastWins | src/parser.rs:74 | the last header line with a name decides its value, so later duplicates overwrite |
| ParserProperties.DedicatedFromLastLine | src/parser.rs:76-81 | `host`, `connection` and `accept` come from the last header line with exactly that name |
| ParserProperties.DedicatedAbsent | src/parser.rs:76-81 | without a header line of that exact name, the field stays `""` or empty |
| ParserProperties.LowerCaseHostIgnored | src/parser.rs:77 | names are compared case-sensitively: a `host:` line leaves `host` empty |
| ParserProperties.HostAbsentFromOnlyLine | src/parser.rs:77 | when the only header line is not named `Host`, `host` stays empty |
| ParserProperties.HeadersOfOne | src/parser.rs:74 | one header line gives a one-entry header map |
| ParserProperties.HeaderNameKept | src/parser.rs:71 | a trimmed name is stored exactly as written, letter case included |
| ParserProperties.SingleHeaderNamed | src/parser.rs:60-71 | a request line followed by one `name:value` line has that one header line, named `name` |
| ParserProperties.OnlyHeaderLine | src/parser.rs:33-36 | in a two-line request, the second line is the only header line |
| ParserProperties.ParamKept | src/parser.rs:107-118 | a `key=value` fragment with non-empty trimmed sides is kept trimmed, and the value may contain `=` |
| ParserProperties.ParamDropped | src/parser.rs:116 | a fragment whose trimmed key or value is empty is dropped |
| ParserProperties.ParamKeys | src/parser.rs:101-122 | the keys of the parameter map are exactly the keys of the kept fragments, each with the value of one of them |
| ParserProperties.ParamNamesOf | src/parser.rs:106-119 | over the fragments: every kept fragment's key is in the map, and every entry comes from a kept fragment |
| ParserProperties.ParamsLastWins | src/parser.rs:116-117 | when a key repeats, the last fragment that keeps it decides its value |
| ParserProperties.ParamWritesLastWins | src/parser.rs:116-117 | over the fragments: the last kept fragment with a key decides its value |
| ParserProperties.ParamsOfPair | src/parser.rs:104-119 | a query of two fragments makes their two writes in order |
| ParserProperties.ParamWritesPair | src/parser.rs:106-119 | two fragments give a two-entry write log, in order |
| ParserProperties.UpdatesBothWritten | src/parser.rs:117 | two writes give the map with both entries, the second applied last |
| ParserProperties.UpdatesSecondWritten | src/parser.rs:116-117 | a dropped fragment followed by a kept one gives the one entry |
| ParserProperties.KeptPlain | src/parser.rs:107-117 | plain text on both sides of `=` is kept as it is |
| ParserProperties.TwoParams | src/parser.rs:101-122 | `a=x&b=y` gives `{a: x, b: y}` |
| ParserProperties.EmptyValueDropped | src/parser.rs:116 | `a=&b=y` gives `{b: y}` |
| ParserProperties.SplitPair | src/parser.rs:126-129 | text with one separator splits into its two sides exactly, so fragments are not trimmed |

## Left out

- `src/threads.rs`, the worker pool, is not part of this model. It is cross-thread coordination over channels and mutexes.
- `src/server.rs`, the non-blocking accept loop, is not part of this model. It is socket I/O and sleep-based polling.
- `src/main.rs` and `src/lib.rs` are not part of this model. They hold process startup and module re-exports only.
- The per-connection handler and the response writer are not part of this model. They are in no file of the source shown.
- The `Instant::now()` timestamp that `HttpRequest::new` returns with the request is dropped. It is wall-clock time with no logical content, so `NewRequest` returns the request alone.
- Whitespace is the six ASCII characters that Rust's `char::is_whitespace` accepts: space, tab, line feed, vertical tab, form feed and carriage return. The Unicode whitespace that `trim` and `split_whitespace` also remove is not modelled.
- The Rust field `method` is named `requestMethod`, because `method` is a Dafny keyword.
- `HashMap` is a Dafny `map`. Hashing, capacity and iteration order are not modelled; the parser does not depend on them.
- `NewRequest` does the work of the two branches of the source loop body by calling `ParseRequestLine` and `ParseHeaderLine`. The source writes both branches inline.
- The input lines come in as a `seq<string>`. Reading them from the socket happens outside `src/parser.rs` and is not modelled.
