/**
  The pieces of Rust's `str` API that the request parser relies on, written as
  pure functions over `string` (a `seq<char>`):
  `find`, `split_once`, `split`, `trim` and `split_whitespace`, plus `join`,
  the inverse of `split`.
  Whitespace is the ASCII part of Rust's `char::is_whitespace`.
*/
module StdStr {
  import opened Wrappers

  /** Space, tab, line feed, vertical tab, form feed and carriage return. */
  predicate IsWhitespace(c: char) {
    c == ' ' || c == '\t' || c == '\n' || c == '\U{000B}' || c == '\U{000C}' || c == '\r'
  }

  predicate HasNoWhitespace(s: string) {
    forall i :: 0 <= i < |s| ==> !IsWhitespace(s[i])
  }

  /** Neither end of `s` is whitespace: what `trim` produces. */
  predicate IsTrimmed(s: string) {
    s == [] || (!IsWhitespace(s[0]) && !IsWhitespace(s[|s| - 1]))
  }

  // ---------------------------------------------------------------------------
  // find and split_once
  // ---------------------------------------------------------------------------

  /** The index of the first occurrence of `x` in `s`, if any. */
  function IndexOf<T(==)>(s: seq<T>, x: T): (r: Option<nat>)
    ensures r.None? <==> x !in s
    ensures r.Some? ==> r.value < |s| && s[r.value] == x && x !in s[..r.value]
  {
    if |s| == 0 then None
    else if s[0] == x then Some(0)
    else match IndexOf(s[1..], x)
      case None => None
      case Some(i) =>
        assert s[..i + 1] == [s[0]] + s[1..][..i];
        Some(i + 1)
  }

  /** Any index that holds `x` with no `x` before it is the one `IndexOf` finds. */
  lemma IndexOfFirst<T>(s: seq<T>, x: T, i: nat)
    requires i < |s| && s[i] == x && x !in s[..i]
    ensures IndexOf(s, x) == Some(i)
  {
    assert s[i] in s;
    var k := IndexOf(s, x).value;
    assert forall j :: 0 <= j < k ==> s[..k][j] == s[j];
    assert forall j :: 0 <= j < i ==> s[..i][j] == s[j];
  }

  /** `str::split_once`: the text before and after the first `sep`. */
  function SplitOnce(s: string, sep: char): (r: Option<(string, string)>)
    ensures r.None? <==> sep !in s
    ensures r.Some? ==> s == r.value.0 + [sep] + r.value.1 && sep !in r.value.0
  {
    match IndexOf(s, sep)
    case None => None
    case Some(i) =>
      assert s == s[..i] + [sep] + s[i + 1..];
      Some((s[..i], s[i + 1..]))
  }

  /** The two halves around the first `sep` are determined by `s`. */
  lemma SplitOnceUnique(a: string, sep: char, b: string)
    requires sep !in a
    ensures SplitOnce(a + [sep] + b, sep) == Some((a, b))
  {
    var s := a + [sep] + b;
    assert s[..|a|] == a;
    IndexOfFirst(s, sep, |a|);
    assert s[|a| + 1..] == b;
  }

  // ---------------------------------------------------------------------------
  // split and join
  // ---------------------------------------------------------------------------

  /** `str::split` on a single character: the fragments between separators, in order. */
  function Split(s: string, sep: char): (parts: seq<string>)
    ensures |parts| >= 1
    ensures forall k :: 0 <= k < |parts| ==> sep !in parts[k]
    decreases |s|
  {
    match SplitOnce(s, sep)
    case None => [s]
    case Some((before, after)) => [before] + Split(after, sep)
  }

  /** `slice::join` with a one-character separator. */
  function Join(parts: seq<string>, sep: char): string
  {
    if |parts| == 0 then ""
    else if |parts| == 1 then parts[0]
    else parts[0] + [sep] + Join(parts[1..], sep)
  }

  /** Joining the fragments of a split gives back the original text. */
  lemma {:induction false} JoinSplit(s: string, sep: char)
    ensures Join(Split(s, sep), sep) == s
    decreases |s|
  {
    match SplitOnce(s, sep)
    case None =>
    case Some((before, after)) =>
      JoinSplit(after, sep);
      assert Split(s, sep)[1..] == Split(after, sep);
  }

  /** Splitting a join of separator-free fragments gives back the fragments. */
  lemma {:induction false} SplitJoin(parts: seq<string>, sep: char)
    requires |parts| >= 1
    requires forall k :: 0 <= k < |parts| ==> sep !in parts[k]
    ensures Split(Join(parts, sep), sep) == parts
    decreases |parts|
  {
    if |parts| == 1 {
      assert SplitOnce(parts[0], sep).None?;
    } else {
      var rest := Join(parts[1..], sep);
      SplitOnceUnique(parts[0], sep, rest);
      SplitJoin(parts[1..], sep);
      assert parts == [parts[0]] + parts[1..];
    }
  }

  /** A split has exactly one more fragment than there are separators. */
  lemma {:induction false} SplitCount(s: string, sep: char)
    ensures |Split(s, sep)| == multiset(s)[sep] + 1
    decreases |s|
  {
    match SplitOnce(s, sep)
    case None =>
      assert multiset(s)[sep] == 0;
    case Some((before, after)) =>
      SplitCount(after, sep);
      assert multiset(s) == multiset(before) + multiset{sep} + multiset(after);
      assert multiset(before)[sep] == 0;
  }

  // ---------------------------------------------------------------------------
  // trim
  // ---------------------------------------------------------------------------

  /** `str::trim_start`: drops the leading whitespace. */
  function TrimStart(s: string): (r: string)
    ensures |r| <= |s|
    ensures r == [] || !IsWhitespace(r[0])
    decreases |s|
  {
    if s != [] && IsWhitespace(s[0]) then TrimStart(s[1..]) else s
  }

  /** `trim_start` drops only whitespace, and keeps the rest of the text as it is. */
  lemma {:induction false} TrimStartDropsWhitespace(s: string)
    ensures var r := TrimStart(s);
            && (forall i :: 0 <= i < |s| - |r| ==> IsWhitespace(s[i]))
            && (forall i :: 0 <= i < |r| ==> r[i] == s[|s| - |r| + i])
    decreases |s|
  {
    if s != [] && IsWhitespace(s[0]) {
      TrimStartDropsWhitespace(s[1..]);
    }
  }

  /** `str::trim_end`: drops the trailing whitespace. */
  function TrimEnd(s: string): (r: string)
    ensures |r| <= |s|
    ensures r == [] || !IsWhitespace(r[|r| - 1])
    decreases |s|
  {
    if s != [] && IsWhitespace(s[|s| - 1]) then TrimEnd(s[..|s| - 1]) else s
  }

  /** `trim_end` drops only whitespace, and keeps the rest of the text as it is. */
  lemma {:induction false} TrimEndDropsWhitespace(s: string)
    ensures var r := TrimEnd(s);
            && (forall i :: |r| <= i < |s| ==> IsWhitespace(s[i]))
            && (forall i :: 0 <= i < |r| ==> r[i] == s[i])
    decreases |s|
  {
    if s != [] && IsWhitespace(s[|s| - 1]) {
      TrimEndDropsWhitespace(s[..|s| - 1]);
    }
  }

  /** `str::trim`: drops whitespace at both ends and keeps the middle as it is. */
  function Trim(s: string): (r: string)
    ensures IsTrimmed(r)
  {
    var t := TrimStart(s);
    TrimEndDropsWhitespace(t);
    TrimEnd(t)
  }

  /** `trim` leaves nothing exactly when the text is all whitespace. */
  lemma TrimEmpty(s: string)
    ensures Trim(s) == [] <==> AllWhitespace(s)
  {
    var t := TrimStart(s);
    TrimStartDropsWhitespace(s);
    TrimEndDropsWhitespace(t);
    if Trim(s) != [] {
      assert t != [] && !IsWhitespace(t[0]);
      var k := |s| - |t|;
      assert t[0] == s[k];
      assert !IsWhitespace(s[k]);
    }
  }

  /** Trimming text that is already trimmed changes nothing, so `trim` is idempotent. */
  lemma TrimmedIsFixed(s: string)
    requires IsTrimmed(s)
    ensures Trim(s) == s
  {
    if s != [] {
      assert TrimStart(s) == s;
    }
  }

  // ---------------------------------------------------------------------------
  // split_whitespace
  // ---------------------------------------------------------------------------

  /** The length of the leading run of non-whitespace characters. */
  function TokenEnd(s: string): (n: nat)
    ensures n <= |s| && HasNoWhitespace(s[..n])
    ensures n < |s| ==> IsWhitespace(s[n])
  {
    if s == [] || IsWhitespace(s[0]) then 0
    else
      var n := TokenEnd(s[1..]) + 1;
      assert s[..n] == [s[0]] + s[1..][..n - 1];
      n
  }

  /** `str::split_whitespace`: the maximal runs of non-whitespace characters, in order. */
  function SplitWhitespace(s: string): (tokens: seq<string>)
    ensures forall k :: 0 <= k < |tokens| ==> tokens[k] != [] && HasNoWhitespace(tokens[k])
    decreases |s|
  {
    var t := TrimStart(s);
    if t == [] then []
    else
      var n := TokenEnd(t);
      assert n != 0 by { assert !IsWhitespace(t[0]); }
      var token, rest := t[..n], SplitWhitespace(t[n..]);
      assert token != [] && HasNoWhitespace(token);
      [token] + rest
  }

  lemma {:induction false} TokenEndOfToken(t: string, rest: string)
    requires t != [] && HasNoWhitespace(t)
    requires rest == [] || IsWhitespace(rest[0])
    ensures TokenEnd(t + rest) == |t|
    decreases |t|
  {
    var s := t + rest;
    assert s[0] == t[0];
    if |t| > 1 {
      assert s[1..] == t[1..] + rest;
      TokenEndOfToken(t[1..], rest);
    } else {
      assert s[1..] == rest;
    }
  }

  /** Text made only of whitespace, possibly empty. */
  predicate AllWhitespace(s: string) {
    forall i :: 0 <= i < |s| ==> IsWhitespace(s[i])
  }

  /**
    The tokens laid out with the whitespace `gaps` around them: `gaps[0]` before
    the first token, `gaps[k]` between tokens `k - 1` and `k`, and the last gap
    after the last token.
  */
  function Layout(tokens: seq<string>, gaps: seq<string>): string
    requires |gaps| == |tokens| + 1
    decreases |tokens|
  {
    if tokens == [] then gaps[0] else gaps[0] + (tokens[0] + Layout(tokens[1..], gaps[1..]))
  }

  /**
    A layout of a line: non-empty tokens without whitespace, gaps of whitespace,
    and at least one whitespace character between two tokens.
  */
  predicate IsLayout(tokens: seq<string>, gaps: seq<string>) {
    && |gaps| == |tokens| + 1
    && (forall k :: 0 <= k < |tokens| ==> tokens[k] != [] && HasNoWhitespace(tokens[k]))
    && (forall k :: 0 <= k < |gaps| ==> AllWhitespace(gaps[k]))
    && (forall k :: 0 < k < |tokens| ==> gaps[k] != [])
  }

  /** `trim_start` goes through leading whitespace. */
  lemma {:induction false} TrimStartSkip(w: string, s: string)
    requires AllWhitespace(w)
    ensures TrimStart(w + s) == TrimStart(s)
    decreases |w|
  {
    if w != [] {
      assert (w + s)[0] == w[0];
      assert (w + s)[1..] == w[1..] + s;
      assert forall i :: 0 <= i < |w| - 1 ==> w[1..][i] == w[i + 1];
      assert IsWhitespace(w[0]);
      assert TrimStart(w + s) == TrimStart(w[1..] + s);
      TrimStartSkip(w[1..], s);
    } else {
      assert w + s == s;
    }
  }

  /** `split_whitespace` looks only at the text after the leading whitespace. */
  lemma SplitWhitespaceOfTrimStart(a: string, b: string)
    requires TrimStart(a) == TrimStart(b)
    ensures SplitWhitespace(a) == SplitWhitespace(b)
  {
  }

  /** Leading whitespace does not change the tokens. */
  lemma SplitWhitespaceSkip(w: string, s: string)
    requires AllWhitespace(w)
    ensures SplitWhitespace(w + s) == SplitWhitespace(s)
  {
    TrimStartSkip(w, s);
    SplitWhitespaceOfTrimStart(w + s, s);
  }

  /** Text of whitespace only has no tokens. */
  lemma SplitWhitespaceBlank(w: string)
    requires AllWhitespace(w)
    ensures SplitWhitespace(w) == []
  {
    SplitWhitespaceSkip(w, []);
    assert w + [] == w;
  }

  /** A token followed by whitespace, or by the end of the text, is the first token. */
  lemma SplitWhitespaceToken(t: string, w: string, s: string)
    requires t != [] && HasNoWhitespace(t) && AllWhitespace(w)
    requires w != [] || s == []
    ensures SplitWhitespace(t + w + s) == [t] + SplitWhitespace(s)
  {
    var line := t + w + s;
    assert line[0] == t[0];
    assert TrimStart(line) == line;
    assert line == t + (w + s);
    TokenEndOfToken(t, w + s);
    assert line[..|t|] == t && line[|t|..] == w + s;
    SplitWhitespaceSkip(w, s);
  }

  /** A layout with at least one token: its first gap, its first token, and the layout of the rest. */
  lemma LayoutTail(tokens: seq<string>, gaps: seq<string>)
    requires IsLayout(tokens, gaps) && tokens != []
    ensures IsLayout(tokens[1..], gaps[1..])
    ensures Layout(tokens, gaps) == gaps[0] + (tokens[0] + Layout(tokens[1..], gaps[1..]))
    ensures AllWhitespace(gaps[0]) && tokens[0] != [] && HasNoWhitespace(tokens[0])
    ensures |tokens| > 1 ==> gaps[1] != []
  {
    assert forall k :: 0 <= k < |tokens| - 1 ==> tokens[1..][k] == tokens[k + 1];
    assert forall k :: 0 <= k < |gaps| - 1 ==> gaps[1..][k] == gaps[k + 1];
  }

  /** A token then a layout whose first gap is not empty, unless it has no token. */
  lemma SplitWhitespaceTokenLayout(t: string, tokens: seq<string>, gaps: seq<string>)
    requires t != [] && HasNoWhitespace(t)
    requires IsLayout(tokens, gaps) && (tokens != [] ==> gaps[0] != [])
    ensures SplitWhitespace(t + Layout(tokens, gaps)) == [t] + SplitWhitespace(Layout(tokens, gaps))
  {
    if tokens == [] {
      assert AllWhitespace(gaps[0]);
      SplitWhitespaceTokenBlank(t, gaps[0]);
      SplitWhitespaceBlank(gaps[0]);
      assert [t] + [] == [t];
    } else {
      LayoutTail(tokens, gaps);
      SplitWhitespaceTokenGap(t, gaps[0], tokens[0] + Layout(tokens[1..], gaps[1..]));
    }
  }

  /** A token then whitespace only is that one token. */
  lemma SplitWhitespaceTokenBlank(t: string, w: string)
    requires t != [] && HasNoWhitespace(t) && AllWhitespace(w)
    ensures SplitWhitespace(t + w) == [t]
  {
    SplitWhitespaceToken(t, w, []);
    SplitWhitespaceBlank(w);
    assert t + w + [] == t + w;
  }

  /** A token, a non-empty gap and any text: the token, then the tokens of the gap and the text. */
  lemma SplitWhitespaceTokenGap(t: string, w: string, x: string)
    requires t != [] && HasNoWhitespace(t) && AllWhitespace(w) && w != []
    ensures SplitWhitespace(t + (w + x)) == [t] + SplitWhitespace(w + x)
  {
    SplitWhitespaceToken(t, w, x);
    SplitWhitespaceSkip(w, x);
    assert t + (w + x) == t + w + x;
  }

  /** Every layout splits back into its own tokens, whatever whitespace surrounds them. */
  lemma {:induction false} SplitWhitespaceLayout(tokens: seq<string>, gaps: seq<string>)
    requires IsLayout(tokens, gaps)
    ensures SplitWhitespace(Layout(tokens, gaps)) == tokens
    decreases |tokens|
  {
    if tokens == [] {
      SplitWhitespaceBlank(gaps[0]);
    } else {
      LayoutTail(tokens, gaps);
      var rest := Layout(tokens[1..], gaps[1..]);
      SplitWhitespaceLayout(tokens[1..], gaps[1..]);
      SplitWhitespaceTokenLayout(tokens[0], tokens[1..], gaps[1..]);
      SplitWhitespaceSkip(gaps[0], tokens[0] + rest);
      assert tokens == [tokens[0]] + tokens[1..];
    }
  }

  /** A token and the gap before it extend a layout that starts with whitespace or is empty. */
  lemma LayoutCons(g: string, t: string, tokens: seq<string>, gaps: seq<string>)
    requires AllWhitespace(g) && t != [] && HasNoWhitespace(t)
    requires IsLayout(tokens, gaps) && (tokens != [] ==> gaps[0] != [])
    ensures IsLayout([t] + tokens, [g] + gaps)
    ensures Layout([t] + tokens, [g] + gaps) == g + (t + Layout(tokens, gaps))
  {
    var tokens', gaps' := [t] + tokens, [g] + gaps;
    assert tokens'[1..] == tokens && gaps'[1..] == gaps;
    assert forall k :: 0 < k < |tokens'| ==> tokens'[k] == tokens[k - 1];
    assert forall k :: 0 < k < |gaps'| ==> gaps'[k] == gaps[k - 1];
  }

  /** A layout whose first gap is empty starts with its first token. */
  lemma LayoutStartsWithToken(tokens: seq<string>, gaps: seq<string>)
    requires IsLayout(tokens, gaps) && tokens != [] && gaps[0] == []
    ensures Layout(tokens, gaps) != [] && !IsWhitespace(Layout(tokens, gaps)[0])
  {
    LayoutTail(tokens, gaps);
    assert Layout(tokens, gaps)[0] == tokens[0][0];
  }

  /** The whitespace gaps of `s` around its tokens, as `split_whitespace` finds them. */
  function GapsOf(s: string): (gaps: seq<string>)
    ensures |gaps| == |SplitWhitespace(s)| + 1
    decreases |s|
  {
    var t := TrimStart(s);
    if t == [] then [s]
    else
      var n := TokenEnd(t);
      assert n != 0 by { assert !IsWhitespace(t[0]); }
      [s[..|s| - |t|]] + GapsOf(t[n..])
  }

  /** One step of `split_whitespace` and `GapsOf`: the first token, then the text after it. */
  lemma SplitWhitespaceUnfold(s: string)
    requires TrimStart(s) != []
    ensures var t := TrimStart(s);
            var n := TokenEnd(t);
            && SplitWhitespace(s) == [t[..n]] + SplitWhitespace(t[n..])
            && GapsOf(s) == [s[..|s| - |t|]] + GapsOf(t[n..])
  {
  }

  /** The text is its leading whitespace followed by what `trim_start` keeps. */
  lemma TrimStartParts(s: string)
    ensures var t := TrimStart(s);
            AllWhitespace(s[..|s| - |t|]) && s == s[..|s| - |t|] + t
  {
    var t := TrimStart(s);
    var k := |s| - |t|;
    TrimStartDropsWhitespace(s);
    forall i | 0 <= i < |s|
      ensures (s[..k] + t)[i] == s[i]
    {
      if k <= i {
        assert t[i - k] == s[k + (i - k)];
      }
    }
    assert s[..k] + t == s;
  }

  /** Text starting with a non-whitespace character is its first token followed by whitespace or nothing. */
  lemma TokenParts(t: string)
    requires t != [] && !IsWhitespace(t[0])
    ensures var n := TokenEnd(t);
            && 0 < n && HasNoWhitespace(t[..n])
            && t == t[..n] + t[n..]
            && (t[n..] != [] ==> IsWhitespace(t[n..][0]))
  {
    var n := TokenEnd(t);
    if n < |t| {
      assert t[n..][0] == t[n];
    }
  }

  /** Every text is the layout of its own `split_whitespace` tokens. */
  lemma {:induction false} LayoutOfSplitWhitespace(s: string)
    ensures IsLayout(SplitWhitespace(s), GapsOf(s))
    ensures Layout(SplitWhitespace(s), GapsOf(s)) == s
    decreases |s|
  {
    var t := TrimStart(s);
    if t == [] {
      TrimStartDropsWhitespace(s);
      assert SplitWhitespace(s) == [] && GapsOf(s) == [s];
    } else {
      SplitWhitespaceUnfold(s);
      TrimStartParts(s);
      TokenParts(t);
      var n := TokenEnd(t);
      var lead, token, after := s[..|s| - |t|], t[..n], t[n..];
      LayoutOfSplitWhitespace(after);
      var tokens, gaps := SplitWhitespace(after), GapsOf(after);
      if tokens != [] && gaps[0] == [] {
        LayoutStartsWithToken(tokens, gaps);
      }
      LayoutCons(lead, token, tokens, gaps);
    }
  }
}
