/** Which Rust sources the lexer refuses, said without running it. */
module RefusedSources {
  import opened Chars
  import opened RustChars
  import opened RustTokens
  import opened RustLexer

  // ----- string literals --------------------------------------------------

  /** A backslash before `i` may stand there: before a simple escape, two hexadecimal digits, a Unicode scalar
      value, or a line break. */
  predicate GoodEscape(s: string, i: int)
    requires 0 <= i <= |s|
  {
    && i < |s|
    && (|| s[i] in "nrt0\\\"'"
        || (s[i] == 'x' && i + 2 < |s| && Hex(s[i + 1]) && Hex(s[i + 2]))
        || (s[i] == 'u' && UnicodeEnd(s, i).Some? && UnicodeCode(s, i, UnicodeEnd(s, i).value).Some?
            && ScalarValue(UnicodeCode(s, i, UnicodeEnd(s, i).value).value))
        || s[i] == '\n' || Two(s, i, '\r', '\n'))
  }

  predicate ScalarValue(n: nat) {
    n <= 0x10FFFF && !(0xD800 <= n <= 0xDFFF)
  }

  /** From `i` whole characters and good escapes, none of them a closing quote, lead to `j`. */
  ghost predicate ReadsTo(s: string, i: int, j: int)
    requires 0 <= i <= |s|
    decreases |s| - i
  {
    || i == j
    || (i < |s| && s[i] != '"' && s[i] != '\\' && ReadsTo(s, i + 1, j))
    || (i < |s| && s[i] == '\\' && EscapeAt(s, i + 1).Ok? && ReadsTo(s, EscapeAt(s, i + 1).value.end, j))
  }

  /** The body that starts at `i` reaches the end of the source, or an escape that is no good. */
  ghost predicate BadString(s: string, i: int)
    requires 0 <= i <= |s|
  {
    exists j :: ReadsTo(s, i, j) && BreaksAt(s, j)
  }

  predicate BreaksAt(s: string, j: int) {
    0 <= j <= |s| && (j == |s| || (s[j] == '\\' && !GoodEscape(s, j + 1)))
  }

  lemma EscapeExactly(s: string, i: int)
    requires 0 <= i <= |s|
    ensures EscapeAt(s, i).Ok? <==> GoodEscape(s, i)
  {
  }

  lemma {:induction false} DecodeFailsExactly(s: string, i: int)
    requires 0 <= i <= |s|
    ensures Decode(s, i).Err? <==> BadString(s, i)
    decreases |s| - i
  {
    hide EscapeAt, GoodEscape;
    if i < |s| && s[i] != '"' {
      EscapeExactly(s, i + 1);
      if s[i] != '\\' {
        DecodeFailsExactly(s, i + 1);
        SameFate(s, i, i + 1);
      } else if EscapeAt(s, i + 1).Ok? {
        DecodeFailsExactly(s, EscapeAt(s, i + 1).value.end);
        SameFate(s, i, EscapeAt(s, i + 1).value.end);
      } else {
        assert ReadsTo(s, i, i) && BreaksAt(s, i);
      }
    } else if i == |s| {
      assert ReadsTo(s, i, i) && BreaksAt(s, i);
    }
  }

  /** One good step does not change whether a string is bad. */
  lemma SameFate(s: string, i: int, next: int)
    requires 0 <= i < |s| && s[i] != '"' && i < next <= |s|
    requires if s[i] == '\\' then EscapeAt(s, i + 1).Ok? && next == EscapeAt(s, i + 1).value.end else next == i + 1
    ensures BadString(s, i) <==> BadString(s, next)
  {
    hide EscapeAt, GoodEscape;
    EscapeExactly(s, i + 1);
    if j :| ReadsTo(s, i, j) && BreaksAt(s, j) {
      assert j != i && ReadsTo(s, next, j);
    }
    if j :| ReadsTo(s, next, j) && BreaksAt(s, j) {
      assert ReadsTo(s, i, j);
    }
  }

  // ----- where a source breaks --------------------------------------------

  /** No comment of the grammar starts at `a`. */
  ghost predicate Unclosed(s: string, a: int) {
    forall c :: !Block(s, a, c)
  }

  /** What starts at `i` never ends, or ends in a string that cannot be read: a block comment without its closers, a raw
      string without its closer, or a bad string. */
  ghost predicate Broken(s: string, i: int)
    requires 0 <= i < |s|
  {
    || (Two(s, i, '/', '*') && Unclosed(s, i))
    || (RawOpener(s, i).Some? && forall k :: RawOpener(s, i).value.0 <= k ==> !RawCloser(s, k, RawOpener(s, i).value.1))
    || (RawOpener(s, i).None? && StringOpener(s, i).Some? && BadString(s, StringOpener(s, i).value))
  }

  lemma BadExactly(s: string, i: int)
    requires 0 <= i < |s|
    ensures NextPiece(s, i).Bad? <==> Broken(s, i)
  {
    hide Decode, BadString, Unclosed, BlockEnd;
    if Two(s, i, '/', '*') {
      NeverClosed(s, i);
    } else if RawOpener(s, i).Some? {
      var (body, hashes) := RawOpener(s, i).value;
      var close := FindRawCloser(s, body, hashes);
      assert close.Some? ==> RawCloser(s, close.value, hashes);
    } else if RawOpener(s, i).None? && StringOpener(s, i).Some? {
      DecodeFailsExactly(s, StringOpener(s, i).value);
    }
  }

  lemma NeverClosed(s: string, a: int)
    requires Two(s, a, '/', '*')
    ensures BlockEnd(s, a + 2, 1).None? <==> Unclosed(s, a)
  {
    hide Block, BlockEnd;
    var end := BlockEnd(s, a + 2, 1);
    if end.Some? {
      BlockExactly(s, a, end.value);
    }
    if c :| Block(s, a, c) {
      BlockExactly(s, a, c);
    }
  }

  // ----- trivia is skipped one way ----------------------------------------

  lemma PieceIsSkipped(s: string, a: int, c: int)
    requires TriviaPiece(s, a, c)
    ensures NextPiece(s, a) == Gap(c)
  {
    hide Block, BlockEnd;
    if Block(s, a, c) {
      TwoOfBlock(s, a, c);
    }
    if Space(s[a]) {
    } else if Two(s, a, '/', '/') {
      assert s[a + 1] == '/' && c != a + 1;
    } else {
      BlockExactly(s, a, c);
    }
  }

  lemma TwoOfBlock(s: string, a: int, c: int)
    requires Block(s, a, c)
    ensures Two(s, a, '/', '*')
  {
  }

  lemma {:induction false} TriviaIsSkipped(s: string, a: int, b: int)
    requires Trivia(s, a, b) && 0 <= a <= b <= |s|
    ensures Readable(s, a) == Readable(s, b)
    decreases b - a
  {
    hide NextPiece, TriviaPiece;
    if a != b {
      var c :| a < c <= b && TriviaPiece(s, a, c) && Trivia(s, c, b);
      PieceIsSkipped(s, a, c);
      TriviaIsSkipped(s, c, b);
    }
  }

  lemma {:induction false} CoveredIsRead(s: string, tokens: seq<Token>, spans: seq<Span>, i: int)
    requires Covers(s, tokens, spans, i) && 0 <= i <= |s|
    ensures Readable(s, 0) == Readable(s, i)
    decreases |tokens|
  {
    hide NextPiece, Trivia;
    if tokens == [] {
      TriviaIsSkipped(s, 0, i);
    } else {
      var k := |tokens| - 1;
      LastSpan(s, tokens, spans, i);
      TriviaIsSkipped(s, spans[k].end, i);
      CoveredIsRead(s, tokens[..k], spans[..k], spans[k].start);
    }
  }

  lemma {:induction false} FirstBreak(s: string, tokens: seq<Token>, spans: seq<Span>, i: int)
    returns (ts: seq<Token>, ps: seq<Span>, j: int)
    requires 0 <= i <= |s| && Covers(s, tokens, spans, i) && !Readable(s, i)
    ensures 0 <= j < |s| && Covers(s, ts, ps, j) && Broken(s, j)
    decreases |s| - i
  {
    hide Covers, Broken, NextPiece;
    BadExactly(s, i);
    var p := NextPiece(s, i);
    match p
    case Bad(_) => ts, ps, j := tokens, spans, i;
    case Gap(end) =>
      CoverGap(s, tokens, spans, i);
      ts, ps, j := FirstBreak(s, tokens, spans, end);
    case Lexeme(kind, value, end) =>
      var t := Token(kind, s[i..end], value, Newlines(s, i) + 1, i - LineStart(s, i) + 1);
      DescribesRead(s, t, i, end);
      CoverToken(s, tokens, spans, t, Span(i, end));
      ts, ps, j := FirstBreak(s, tokens + [t], spans + [Span(i, end)], end);
  }

  /** Tokens and trivia cover the source up to `i`, where something broken starts. */
  ghost predicate BreaksOff(s: string, tokens: seq<Token>, spans: seq<Span>, i: int) {
    0 <= i < |s| && Covers(s, tokens, spans, i) && Broken(s, i)
  }

  /** A source is refused exactly when tokens and trivia lead to a comment, a raw string or a string that is broken. */
  lemma RefusedExactlyWhen(s: string)
    ensures !Readable(s, 0) <==> exists tokens, spans, i :: BreaksOff(s, tokens, spans, i)
  {
    hide Covers, Broken;
    if !Readable(s, 0) {
      EmptyIsTrivia(s, 0);
      StartCovered(s);
      var ts, ps, j := FirstBreak(s, [], [], 0);
      assert BreaksOff(s, ts, ps, j);
    }
    if tokens, spans, i :| BreaksOff(s, tokens, spans, i) {
      CoveredIsRead(s, tokens, spans, i);
      BadExactly(s, i);
    }
  }
}
