/**
 The lossless lexer of the SQL source census: comments, string and character literals, identifiers and
 single-character punctuation (The Rust Reference, "Lexical structure", as far as the census needs it).
 */
module RustChars {
  import opened Wrappers
  import opened Chars

  predicate Hex(c: char) {
    '0' <= c <= '9' || 'a' <= c <= 'f' || 'A' <= c <= 'F'
  }

  function HexValue(c: char): nat
    requires Hex(c)
  {
    if c <= '9' then c as int - '0' as int
    else if c <= 'F' then c as int - 'A' as int + 10
    else c as int - 'a' as int + 10
  }

  predicate IdentStart(c: char) {
    'a' <= c <= 'z' || 'A' <= c <= 'Z' || c == '_'
  }

  predicate IdentPart(c: char) {
    IdentStart(c) || '0' <= c <= '9'
  }

  /** `a` then `b` stand at `i`. */
  predicate Two(s: string, i: int, a: char, b: char) {
    0 <= i && i + 1 < |s| && s[i] == a && s[i + 1] == b
  }

  function IdentRun(s: string, i: int): (e: int)
    requires 0 <= i <= |s|
    ensures i <= e <= |s| && forall k :: i <= k < e ==> IdentPart(s[k])
    ensures e < |s| ==> !IdentPart(s[e])
    decreases |s| - i
  {
    if i < |s| && IdentPart(s[i]) then IdentRun(s, i + 1) else i
  }

  /** The end of `u{...}` at `i`, for one or more hexadecimal digits and underscores. */
  function UnicodeEnd(s: string, i: int): (e: Option<int>)
    requires 0 <= i
    ensures e.Some? ==> i + 3 < e.value <= |s|
  {
    if !Two(s, i, 'u', '{') then None
    else
      var e := HexRun(s, i + 2);
      if e > i + 2 && At(s, e, '}') then Some(e + 1) else None
  }

  function HexRun(s: string, i: int): (e: int)
    requires 0 <= i <= |s|
    ensures i <= e <= |s| && forall k :: i <= k < e ==> Hex(s[k]) || s[k] == '_'
    decreases |s| - i
  {
    if i < |s| && (Hex(s[i]) || s[i] == '_') then HexRun(s, i + 1) else i
  }

  /** The number that hexadecimal digits spell, underscores dropped; None for no digit at all. */
  function CodePoint(digits: string): Option<nat>
    requires forall k :: 0 <= k < |digits| ==> Hex(digits[k]) || digits[k] == '_'
  {
    if digits == "" then None
    else
      var last, before := digits[|digits| - 1], CodePoint(digits[..|digits| - 1]);
      if last == '_' then before
      else Some(16 * (if before.Some? then before.value else 0) + HexValue(last))
  }
}

module RustLexer {
  import opened Wrappers
  import opened Chars
  import opened RustChars
  import opened RustTokens

  // ----- comments ---------------------------------------------------------

  function LineEnd(s: string, i: int): (e: int)
    requires 0 <= i <= |s|
    ensures i <= e <= |s| && forall k :: i <= k < e ==> s[k] != '\n'
    ensures e < |s| ==> s[e] == '\n'
    decreases |s| - i
  {
    if i < |s| && s[i] != '\n' then LineEnd(s, i + 1) else i
  }

  /** Where `depth` nested comments that are open at `i` are all closed. */
  function BlockEnd(s: string, i: int, depth: nat): (e: Option<int>)
    requires 0 <= i <= |s|
    ensures e.Some? ==> i <= e.value <= |s|
    decreases |s| - i
  {
    if depth == 0 then Some(i)
    else if i == |s| then None
    else if Two(s, i, '/', '*') then BlockEnd(s, i + 2, depth + 1)
    else if Two(s, i, '*', '/') then BlockEnd(s, i + 2, depth - 1)
    else BlockEnd(s, i + 1, depth)
  }

  /** A block comment, by the grammar: an opener, a body of whole comments and other characters, a closer. */
  ghost predicate Block(s: string, a: int, c: int)
    decreases c - a, 0
  {
    Two(s, a, '/', '*') && a + 4 <= c <= |s| && Two(s, c - 2, '*', '/') && Body(s, a + 2, c - 2)
  }

  ghost predicate Body(s: string, i: int, j: int)
    decreases j - i, 1
  {
    0 <= i <= j <= |s| &&
    (|| i == j
     || (i < j && !Two(s, i, '/', '*') && !Two(s, i, '*', '/') && Body(s, i + 1, j))
     || (exists k :: i < k <= j && Block(s, i, k) && Body(s, k, j)))
  }

  /** The scan with a counter closes one comment at a time. */
  lemma {:induction false} ClosesOne(s: string, i: int, depth: nat) returns (c: int)
    requires 0 <= i <= |s| && depth > 0 && BlockEnd(s, i, depth).Some?
    ensures i + 2 <= c <= |s| && Body(s, i, c - 2) && Two(s, c - 2, '*', '/')
    ensures BlockEnd(s, i, depth) == BlockEnd(s, c, depth - 1)
    decreases |s| - i
  {
    if Two(s, i, '/', '*') {
      var inner := ClosesOne(s, i + 2, depth + 1);
      assert Block(s, i, inner);
      c := ClosesOne(s, inner, depth);
      assert Body(s, i, c - 2);
    } else if Two(s, i, '*', '/') {
      c := i + 2;
    } else {
      c := ClosesOne(s, i + 1, depth);
    }
  }

  /** A body is scanned without changing the depth. */
  lemma {:induction false} BodyScans(s: string, i: int, j: int, depth: nat)
    requires Body(s, i, j) && depth > 0
    ensures BlockEnd(s, i, depth) == BlockEnd(s, j, depth)
    decreases j - i
  {
    if i < j {
      if !Two(s, i, '/', '*') && !Two(s, i, '*', '/') && Body(s, i + 1, j) {
        BodyScans(s, i + 1, j, depth);
      } else {
        var k :| i < k <= j && Block(s, i, k) && Body(s, k, j);
        BodyScans(s, i + 2, k - 2, depth + 1);
        BodyScans(s, k, j, depth);
      }
    }
  }

  /** The counter accepts exactly the nesting grammar. */
  lemma BlockExactly(s: string, a: int, c: int)
    requires 0 <= a && Two(s, a, '/', '*')
    ensures BlockEnd(s, a + 2, 1) == Some(c) <==> Block(s, a, c)
  {
    if BlockEnd(s, a + 2, 1) == Some(c) {
      var d := ClosesOne(s, a + 2, 1);
    }
    if Block(s, a, c) {
      BodyScans(s, a + 2, c - 2, 1);
    }
  }

  // ----- what a lexer may skip --------------------------------------------

  ghost predicate TriviaPiece(s: string, a: int, c: int) {
    0 <= a < c <= |s| &&
    (|| (c == a + 1 && Space(s[a]))
     || (Two(s, a, '/', '/') && (c == |s| || s[c] == '\n') && forall k :: a <= k < c ==> s[k] != '\n')
     || Block(s, a, c))
  }

  /** Nothing but whitespace and comments. */
  ghost predicate Trivia(s: string, a: int, b: int)
    decreases b - a
  {
    0 <= a <= b <= |s| && (a == b || exists c :: a < c <= b && TriviaPiece(s, a, c) && Trivia(s, c, b))
  }

  // ----- literals and words -----------------------------------------------

  /** `r`, `br` or `cr`, any number of hashes and a quote: where the body starts, and how many hashes. */
  function RawOpener(s: string, i: int): (o: Option<(int, int)>)
    requires 0 <= i < |s|
    ensures o.Some? ==> i < o.value.0 <= |s| && 0 <= o.value.1
  {
    var start := if s[i] == 'r' then i + 1 else if Two(s, i, 'b', 'r') || Two(s, i, 'c', 'r') then i + 2 else i;
    if start == i then None
    else
      var e := RunEnd(s, start, '#');
      if At(s, e, '"') then Some((e + 1, e - start)) else None
  }

  /** A quote followed by `hashes` hashes stands at `i`. */
  predicate RawCloser(s: string, i: int, hashes: int) {
    At(s, i, '"') && i + hashes < |s| && forall k :: i < k <= i + hashes ==> s[k] == '#'
  }

  function FindRawCloser(s: string, i: int, hashes: int): (e: Option<int>)
    requires 0 <= i <= |s| && 0 <= hashes
    ensures match e
            case None => forall k :: i <= k ==> !RawCloser(s, k, hashes)
            case Some(c) => i <= c && RawCloser(s, c, hashes) && forall k :: i <= k < c ==> !RawCloser(s, k, hashes)
    decreases |s| - i
  {
    if RawCloser(s, i, hashes) then Some(i) else if i == |s| then None else FindRawCloser(s, i + 1, hashes)
  }

  function StringOpener(s: string, i: int): (o: Option<int>)
    requires 0 <= i < |s|
    ensures o.Some? ==> i < o.value <= |s| && s[o.value - 1] == '"'
  {
    if s[i] == '"' then Some(i + 1)
    else if Two(s, i, 'b', '"') || Two(s, i, 'c', '"') then Some(i + 2)
    else None
  }

  function SimpleEscape(c: char): Option<char> {
    match c
    case 'n' => Some('\n')
    case 'r' => Some('\r')
    case 't' => Some('\t')
    case '0' => Some('\0')
    case '\\' => Some('\\')
    case '"' => Some('"')
    case '\'' => Some('\'')
    case _ => None
  }

  datatype Escape = Escape(value: string, end: int)

  /** The escape whose backslash stands just before `i`: what it adds to the value, and where it ends. */
  function EscapeAt(s: string, i: int): (r: Result<Escape, string>)
    requires 0 <= i <= |s|
    ensures r.Ok? ==> i < r.value.end <= |s|
  {
    if i == |s| then Err("unterminated Rust string escape")
    else if SimpleEscape(s[i]).Some? then Ok(Escape([SimpleEscape(s[i]).value], i + 1))
    else if s[i] == 'x' && i + 2 < |s| && Hex(s[i + 1]) && Hex(s[i + 2]) then
      Ok(Escape([(16 * HexValue(s[i + 1]) + HexValue(s[i + 2])) as char], i + 3))
    else if s[i] == 'u' then
      match UnicodeEnd(s, i)
      case None => Err("invalid Rust Unicode escape")
      case Some(e) =>
        var code := UnicodeCode(s, i, e);
        if code.None? || code.value > 0x10FFFF || 0xD800 <= code.value <= 0xDFFF then Err("not a character")
        else Ok(Escape([code.value as char], e))
    else if s[i] == '\n' || Two(s, i, '\r', '\n') then
      assert Space(s[i]);
      Ok(Escape("", SpacesEnd(s, i)))
    else Err("unsupported or invalid Rust string escape")
  }

  function UnicodeCode(s: string, i: int, e: int): Option<nat>
    requires 0 <= i <= |s| && UnicodeEnd(s, i) == Some(e)
  {
    CodePoint(s[i + 2..e - 1])
  }

  /** The value of a string body that starts at `i`, and the index after its closing quote. */
  function Decode(s: string, i: int): (r: Result<Escape, string>)
    requires 0 <= i <= |s|
    ensures r.Ok? ==> i < r.value.end <= |s| && s[r.value.end - 1] == '"'
    decreases |s| - i
  {
    if i == |s| then Err("unterminated Rust string")
    else if s[i] == '"' then Ok(Escape("", i + 1))
    else if s[i] != '\\' then Prefixed([s[i]], Decode(s, i + 1))
    else
      match EscapeAt(s, i + 1)
      case Err(e) => Err(e)
      case Ok(escape) => Prefixed(escape.value, Decode(s, escape.end))
  }

  function Prefixed(prefix: string, r: Result<Escape, string>): Result<Escape, string> {
    match r
    case Err(e) => Err(e)
    case Ok(body) => Ok(Escape(prefix + body.value, body.end))
  }

  /** The end of a character literal at the quote `i`; None leaves the quote to a lifetime. */
  function CharEnd(s: string, i: int): (e: Option<int>)
    requires 0 <= i < |s|
    ensures e.Some? ==> i < e.value <= |s|
  {
    if At(s, i + 1, '\\') then
      var u := UnicodeEnd(s, i + 2);
      if u.Some? && At(s, u.value, '\'') then Some(u.value + 1)
      else if At(s, i + 2, 'x') && i + 4 < |s| && Hex(s[i + 3]) && Hex(s[i + 4]) && At(s, i + 5, '\'') then Some(i + 6)
      else if i + 2 < |s| && s[i + 2] != '\n' && At(s, i + 3, '\'') then Some(i + 4)
      else None
    else if i + 1 < |s| && s[i + 1] != '\'' && At(s, i + 2, '\'') then Some(i + 3)
    else None
  }

  /** Where the word of an identifier at `i` starts: after `r#` in a raw one. */
  function WordStart(s: string, i: int): Option<int>
    requires 0 <= i < |s|
  {
    if Two(s, i, 'r', '#') && i + 2 < |s| && IdentStart(s[i + 2]) then Some(i + 2)
    else if IdentStart(s[i]) then Some(i)
    else None
  }

  // ----- one step of the lexer --------------------------------------------

  datatype Piece = Gap(end: int) | Lexeme(kind: Kind, value: string, end: int) | Bad(error: string)

  function NextPiece(s: string, i: int): (p: Piece)
    requires 0 <= i < |s|
    ensures !p.Bad? ==> i < p.end <= |s|
  {
    if Space(s[i]) then Gap(i + 1)
    else if Two(s, i, '/', '/') then Gap(LineEnd(s, i + 2))
    else if Two(s, i, '/', '*') then
      match BlockEnd(s, i + 2, 1)
      case None => Bad("unterminated Rust block comment")
      case Some(e) => Gap(e)
    else if RawOpener(s, i).Some? then
      var (body, hashes) := RawOpener(s, i).value;
      match FindRawCloser(s, body, hashes)
      case None => Bad("unterminated Rust raw string")
      case Some(e) => Lexeme(Str, s[body..e], e + 1 + hashes)
    else if StringOpener(s, i).Some? then
      match Decode(s, StringOpener(s, i).value)
      case Err(e) => Bad(e)
      case Ok(body) => Lexeme(Str, body.value, body.end)
    else if s[i] == '\'' && CharEnd(s, i).Some? then Lexeme(Chr, "", CharEnd(s, i).value)
    else if WordStart(s, i).Some? then
      var word := WordStart(s, i).value;
      Lexeme(Ident, s[word..IdentRun(s, word)], IdentRun(s, word))
    else Lexeme(Punct, [s[i]], i + 1)
  }

  lemma GapIsTrivia(s: string, i: int)
    requires 0 <= i < |s| && NextPiece(s, i).Gap?
    ensures TriviaPiece(s, i, NextPiece(s, i).end)
  {
    if !Space(s[i]) && Two(s, i, '/', '*') {
      var c := ClosesOne(s, i + 2, 1);
      assert Block(s, i, c);
    }
  }

  lemma {:induction false} TriviaGrows(s: string, a: int, b: int, c: int)
    requires Trivia(s, a, b) && TriviaPiece(s, b, c)
    ensures Trivia(s, a, c)
    decreases b - a
  {
    if a == b {
      assert Trivia(s, c, c);
    } else {
      var k :| a < k <= b && TriviaPiece(s, a, k) && Trivia(s, k, b);
      TriviaGrows(s, k, b, c);
    }
  }

  // ----- positions --------------------------------------------------------

  function Newlines(s: string, n: int): nat
    requires 0 <= n <= |s|
  {
    if n == 0 then 0 else Newlines(s, n - 1) + if s[n - 1] == '\n' then 1 else 0
  }

  /** The index just after the last newline before `n`. */
  function LineStart(s: string, n: int): (start: int)
    requires 0 <= n <= |s|
    ensures 0 <= start <= n && (start == 0 || s[start - 1] == '\n') && forall k :: start <= k < n ==> s[k] != '\n'
  {
    if n == 0 || s[n - 1] == '\n' then n else LineStart(s, n - 1)
  }

  // ----- losslessness -----------------------------------------------------

  datatype Span = Span(start: int, end: int)

  /** The token is what `NextPiece` reads at the span's start, with its text and its 1-based position. */
  ghost predicate Describes(s: string, t: Token, span: Span) {
    && 0 <= span.start < span.end <= |s|
    && NextPiece(s, span.start) == Lexeme(t.kind, t.value, span.end)
    && t.text == s[span.start..span.end]
    && t.line == Newlines(s, span.start) + 1
    && t.column == span.start - LineStart(s, span.start) + 1
  }

  /** The tokens cover `s` up to `i`: in order, without overlap, with only trivia before, between and after. */
  ghost predicate Covers(s: string, tokens: seq<Token>, spans: seq<Span>, i: int)
    decreases |tokens|
  {
    && |spans| == |tokens|
    && if tokens == [] then Trivia(s, 0, i)
       else
         var k := |tokens| - 1;
         Describes(s, tokens[k], spans[k]) && Trivia(s, spans[k].end, i)
             && Covers(s, tokens[..k], spans[..k], spans[k].start)
  }

  /** No step of the lexer from `i` on is refused. */
  predicate Readable(s: string, i: int)
    requires 0 <= i <= |s|
    decreases |s| - i
  {
    i == |s| || (!NextPiece(s, i).Bad? && Readable(s, NextPiece(s, i).end))
  }

  // ----- line numbers by bisection ----------------------------------------

  /** The starts of the lines among the first `n` characters. */
  function LineStarts(s: string, n: int): (starts: seq<int>)
    requires 0 <= n <= |s|
    ensures starts != []
  {
    if n == 0 then [0] else LineStarts(s, n - 1) + if s[n - 1] == '\n' then [n] else []
  }

  /** How many of the ascending `starts` are at most `x`. */
  function BisectRight(starts: seq<int>, x: int): nat {
    if starts == [] then 0
    else if starts[|starts| - 1] <= x then |starts|
    else BisectRight(starts[..|starts| - 1], x)
  }

  lemma {:induction false} StartsSoFar(s: string, n: int)
    requires 0 <= n <= |s|
    ensures var starts := LineStarts(s, n); |starts| == Newlines(s, n) + 1 && starts[|starts| - 1] == LineStart(s, n)
  {
    if n > 0 {
      StartsSoFar(s, n - 1);
    }
  }

  /** Bisection finds the line: one more than the newlines before `x`, starting just after the last of them. */
  lemma {:induction false} BisectFindsLine(s: string, x: int, n: int)
    requires 0 <= x <= n <= |s|
    ensures var line := BisectRight(LineStarts(s, n), x) - 1;
            line == Newlines(s, x) && line < |LineStarts(s, n)| && LineStarts(s, n)[line] == LineStart(s, x)
    decreases n
  {
    StartsSoFar(s, n);
    if x < n {
      BisectFindsLine(s, x, n - 1);
      var before := LineStarts(s, n - 1);
      if s[n - 1] == '\n' {
        assert (before + [n])[..|before|] == before;
      } else {
        assert before + [] == before;
      }
    }
  }

  // ----- the loops --------------------------------------------------------

  method SkipBlockComment(s: string, start: int) returns (end: Option<int>)
    requires 0 <= start <= |s|
    ensures end == BlockEnd(s, start, 1)
  {
    var i, depth := start, 1;
    while depth > 0 && i < |s|
      invariant start <= i <= |s| && 0 <= depth
      invariant BlockEnd(s, i, depth) == BlockEnd(s, start, 1)
      decreases |s| - i
    {
      if Two(s, i, '/', '*') {
        i, depth := i + 2, depth + 1;
      } else if Two(s, i, '*', '/') {
        i, depth := i + 2, depth - 1;
      } else {
        i := i + 1;
      }
    }
    return if depth > 0 then None else Some(i);
  }

  lemma PrefixedTwice(a: string, b: string, r: Result<Escape, string>)
    ensures Prefixed(a, Prefixed(b, r)) == Prefixed(a + b, r)
  {
    if r.Ok? {
      assert a + (b + r.value.value) == a + b + r.value.value;
    }
  }

  lemma NothingPrefixed(r: Result<Escape, string>)
    ensures Prefixed("", r) == r
  {
    if r.Ok? {
      assert "" + r.value.value == r.value.value;
    }
  }

  method DecodeString(s: string, start: int) returns (r: Result<Escape, string>)
    requires 0 <= start <= |s|
    ensures r == Decode(s, start)
  {
    var i, out := start, "";
    NothingPrefixed(Decode(s, start));
    while i < |s| && s[i] != '"'
      invariant start <= i <= |s|
      invariant Prefixed(out, Decode(s, i)) == Decode(s, start)
      decreases |s| - i
    {
      if s[i] != '\\' {
        PrefixedTwice(out, [s[i]], Decode(s, i + 1));
        out, i := out + [s[i]], i + 1;
        continue;
      }
      var escape := EscapeAt(s, i + 1);
      if escape.Err? {
        return Err(escape.error);
      }
      PrefixedTwice(out, escape.value.value, Decode(s, escape.value.end));
      out, i := out + escape.value.value, escape.value.end;
    }
    if i >= |s| {
      return Err("unterminated Rust string");
    }
    assert out + "" == out;
    return Ok(Escape(out, i + 1));
  }

  method ReadPiece(s: string, i: int) returns (p: Piece)
    requires 0 <= i < |s|
    ensures p == NextPiece(s, i)
  {
    if Space(s[i]) {
      return Gap(i + 1);
    }
    if Two(s, i, '/', '/') {
      return Gap(LineEnd(s, i + 2));
    }
    if Two(s, i, '/', '*') {
      var end := SkipBlockComment(s, i + 2);
      return if end.Some? then Gap(end.value) else Bad("unterminated Rust block comment");
    }
    if RawOpener(s, i).Some? {
      var (body, hashes) := RawOpener(s, i).value;
      var end := FindRawCloser(s, body, hashes);
      return if end.Some? then Lexeme(Str, s[body..end.value], end.value + 1 + hashes)
          else Bad("unterminated Rust raw string");
    }
    if StringOpener(s, i).Some? {
      var body := DecodeString(s, StringOpener(s, i).value);
      return if body.Ok? then Lexeme(Str, body.value.value, body.value.end) else Bad(body.error);
    }
    if s[i] == '\'' && CharEnd(s, i).Some? {
      return Lexeme(Chr, "", CharEnd(s, i).value);
    }
    if WordStart(s, i).Some? {
      var word := WordStart(s, i).value;
      return Lexeme(Ident, s[word..IdentRun(s, word)], IdentRun(s, word));
    }
    return Lexeme(Punct, [s[i]], i + 1);
  }

  lemma CoverGap(s: string, tokens: seq<Token>, spans: seq<Span>, i: int)
    requires 0 <= i < |s| && Covers(s, tokens, spans, i) && NextPiece(s, i).Gap?
    ensures Covers(s, tokens, spans, NextPiece(s, i).end)
  {
    GapIsTrivia(s, i);
    hide NextPiece, Describes;
    TriviaGrows(s, if tokens == [] then 0 else spans[|spans| - 1].end, i, NextPiece(s, i).end);
  }

  lemma CoverToken(s: string, tokens: seq<Token>, spans: seq<Span>, t: Token, span: Span)
    requires Covers(s, tokens, spans, span.start) && Describes(s, t, span)
    ensures Covers(s, tokens + [t], spans + [span], span.end)
  {
    assert Trivia(s, span.end, span.end);
    hide Describes, Trivia;
    assert (tokens + [t])[..|tokens|] == tokens && (spans + [span])[..|spans|] == spans;
  }

  lemma EmptyIsTrivia(s: string, i: int)
    requires 0 <= i <= |s|
    ensures Trivia(s, i, i)
  {
  }

  /** The lexer is total on readable sources, refuses the others, and loses nothing: `spans` says where each
      token stands, and everything between the spans is whitespace or comments. */
  method Lex(source: string) returns (r: Result<seq<Token>, string>, ghost spans: seq<Span>)
    ensures r.Ok? <==> Readable(source, 0)
    ensures r.Ok? ==> Covers(source, r.value, spans, |source|)
  {
    hide NextPiece, Covers, Describes;
    var lineStarts := LineStarts(source, |source|);
    var tokens, i := [], 0;
    spans := [];
    assert Covers(source, tokens, spans, 0) by {
      EmptyIsTrivia(source, 0);
      StartCovered(source);
    }
    while i < |source|
      invariant 0 <= i <= |source| && Covers(source, tokens, spans, i)
      invariant Readable(source, i) == Readable(source, 0)
      decreases |source| - i
    {
      var start := i;
      var p := ReadPiece(source, i);
      match p
      case Bad(error) => return Err(error), spans;
      case Gap(end) =>
        CoverGap(source, tokens, spans, i);
        i := end;
      case Lexeme(kind, value, end) =>
        i := end;
        BisectFindsLine(source, start, |source|);
        var lineIndex := BisectRight(lineStarts, start) - 1;
        var t := Token(kind, source[start..i], value, lineIndex + 1, start - lineStarts[lineIndex] + 1);
        assert Describes(source, t, Span(start, i)) by {
          DescribesRead(source, t, start, i);
        }
        CoverToken(source, tokens, spans, t, Span(start, i));
        tokens, spans := tokens + [t], spans + [Span(start, i)];
    }
    return Ok(tokens), spans;
  }

  lemma StartCovered(s: string)
    requires Trivia(s, 0, 0)
    ensures Covers(s, [], [], 0)
  {
  }

  lemma DescribesRead(s: string, t: Token, a: int, b: int)
    requires 0 <= a < b <= |s| && NextPiece(s, a) == Lexeme(t.kind, t.value, b) && t.text == s[a..b]
    requires t.line == Newlines(s, a) + 1 && t.column == a - LineStart(s, a) + 1
    ensures Describes(s, t, Span(a, b))
  {
  }

  // ----- what covering means ----------------------------------------------

  /** The spans are non-empty, disjoint and increasing. */
  lemma {:induction false} SpansIncrease(s: string, tokens: seq<Token>, spans: seq<Span>, i: int, a: int, b: int)
    requires Covers(s, tokens, spans, i) && 0 <= a < b < |spans|
    ensures 0 <= spans[a].start < spans[a].end <= spans[b].start
    decreases |spans|
  {
    hide Covers;
    var k := |spans| - 1;
    LastSpan(s, tokens, spans, i);
    if b < k {
      SpansIncrease(s, tokens[..k], spans[..k], spans[k].start, a, b);
    } else {
      LastSpan(s, tokens[..k], spans[..k], spans[k].start);
      if a < k - 1 {
        SpansIncrease(s, tokens[..k], spans[..k], spans[k].start, a, k - 1);
      }
    }
  }

  lemma LastSpan(s: string, tokens: seq<Token>, spans: seq<Span>, i: int)
    requires Covers(s, tokens, spans, i) && spans != []
    ensures var k := |spans| - 1;
            |tokens| == |spans| && 0 <= spans[k].start < spans[k].end <= i
                && Covers(s, tokens[..k], spans[..k], spans[k].start)
  {
    hide NextPiece;
  }

  // ----- decoding undoes quoting ------------------------------------------

  /** The body of a string literal for `v`: quotes and backslashes escaped, everything else as it is. */
  function Quoted(v: string): string {
    if v == "" then ""
    else QuotedChar(v[0]) + Quoted(v[1..])
  }

  function QuotedChar(c: char): string {
    if c == '"' || c == '\\' then ['\\', c] else [c]
  }

  predicate Reads(s: string, i: int, w: string) {
    0 <= i && i + |w| <= |s| && forall k :: 0 <= k < |w| ==> s[i + k] == w[k]
  }

  lemma ReadsParts(s: string, i: int, a: string, b: string)
    requires Reads(s, i, a + b)
    ensures Reads(s, i, a) && Reads(s, i + |a|, b)
  {
    assert forall k :: 0 <= k < |a| ==> a[k] == (a + b)[k];
    assert forall k :: 0 <= k < |b| ==> b[k] == (a + b)[|a| + k];
  }

  /** Round trip: decoding the quoted form of any string gives the string back and stops at its closing quote. */
  lemma {:induction false} DecodeOfQuoted(s: string, i: int, v: string)
    requires Reads(s, i, Quoted(v)) && At(s, i + |Quoted(v)|, '"')
    ensures Decode(s, i) == Ok(Escape(v, i + |Quoted(v)| + 1))
    decreases |v|
  {
    hide Decode, Quoted, Reads, QuotedChar;
    if v == "" {
      QuotedNothing(s, i);
    } else {
      var c, w := v[0], v[1..];
      assert v == [c] + w;
      QuotedParts(c, w);
      ReadsParts(s, i, QuotedChar(c), Quoted(w));
      DecodeOfQuoted(s, i + |QuotedChar(c)|, w);
      DecodesChar(s, i, c);
    }
  }

  lemma QuotedNothing(s: string, i: int)
    ensures Quoted("") == ""
    ensures At(s, i, '"') ==> Decode(s, i) == Ok(Escape("", i + 1))
  {
  }

  lemma QuotedParts(c: char, w: string)
    ensures Quoted([c] + w) == QuotedChar(c) + Quoted(w)
  {
  }

  lemma DecodesChar(s: string, i: int, c: char)
    requires Reads(s, i, QuotedChar(c)) && i + |QuotedChar(c)| <= |s|
    ensures Decode(s, i) == Prefixed([c], Decode(s, i + |QuotedChar(c)|))
  {
    assert s[i + 0] == QuotedChar(c)[0];
    if c == '"' || c == '\\' {
      assert s[i + 1] == QuotedChar(c)[1];
      assert EscapeAt(s, i + 1) == Ok(Escape([c], i + 2));
    }
  }
}
