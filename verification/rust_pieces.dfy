/**
 The grammar of the tokens (The Rust Reference, "Tokens", as far as the census needs it), written over code points and
 positions, and the theorem that the lexer reads exactly what the grammar allows.
 */
module RustPieces {
  import opened Wrappers
  import opened Chars
  import opened RustChars
  import opened RustTokens
  import opened RustLexer
  import opened RefusedSources

  // ----- characters by code point -----------------------------------------

  /** `c` is the hexadecimal digit with the value `n`. */
  predicate HexDigit(c: char, n: int) {
    || (0 <= n <= 9 && c as int == 48 + n)
    || (10 <= n <= 15 && (c as int == 55 + n || c as int == 87 + n))
  }

  ghost predicate IsHex(c: char) {
    exists n :: HexDigit(c, n)
  }

  /** A letter of the Latin alphabet or an underscore. */
  predicate Letter(c: char) {
    65 <= c as int <= 90 || 97 <= c as int <= 122 || c as int == 95
  }

  predicate LetterOrDigit(c: char) {
    Letter(c) || 48 <= c as int <= 57
  }

  lemma HexExactly(c: char, n: int)
    ensures Hex(c) && HexValue(c) == n <==> HexDigit(c, n)
  {
  }

  lemma IsHexExactly(c: char)
    ensures Hex(c) <==> IsHex(c)
  {
    if Hex(c) {
      HexExactly(c, HexValue(c));
    }
    if n :| HexDigit(c, n) {
      HexExactly(c, n);
    }
  }

  lemma OneValue(c: char)
    requires Hex(c)
    ensures forall n :: HexDigit(c, n) <==> n == HexValue(c)
  {
  }

  // ----- braced code points -----------------------------------------------

  /** Hexadecimal digits and underscores stand in [a, b), one at least. */
  ghost predicate Digits(s: string, a: int, b: int) {
    0 <= a < b <= |s| && forall k :: a <= k < b ==> IsHex(s[k]) || s[k] == '_'
  }

  /** `u{`, digits and `}` fill [i, e). */
  ghost predicate Braced(s: string, i: int, e: int) {
    0 <= i && Digits(s, i + 2, e - 1) && e <= |s| && s[i] == 'u' && s[i + 1] == '{' && s[e - 1] == '}'
  }

  /** Reading [a, b) from the left after `n` gives `value`: each digit multiplies by 16, underscores do nothing. */
  ghost predicate Numbered(s: string, a: int, b: int, n: int, value: int)
    decreases b - a
  {
    0 <= a <= b <= |s| &&
    if a == b then value == n
    else if s[a] == '_' then Numbered(s, a + 1, b, n, value)
    else exists d :: HexDigit(s[a], d) && Numbered(s, a + 1, b, 16 * n + d, value)
  }

  lemma {:induction false} HexRunIs(s: string, i: int, e: int)
    requires 0 <= i <= e < |s| && s[e] == '}' && forall k :: i <= k < e ==> Hex(s[k]) || s[k] == '_'
    ensures HexRun(s, i) == e
    decreases e - i
  {
    if i < e {
      HexRunIs(s, i + 1, e);
    }
  }

  lemma BracedExactly(s: string, i: int, e: int)
    requires 0 <= i
    ensures UnicodeEnd(s, i) == Some(e) <==> Braced(s, i, e)
  {
    hide IsHex, Hex;
    forall k | 0 <= k < |s| ensures Hex(s[k]) <==> IsHex(s[k]) {
      IsHexExactly(s[k]);
    }
    if Braced(s, i, e) {
      HexRunIs(s, i + 2, e - 1);
    }
  }

  /** What the digits up to `b` add to those up to `a`: the number so far is read on. */
  lemma {:induction false} NumberGoesOn(s: string, a: int, m: int, b: int, value: int)
    requires 0 <= a <= m <= b <= |s| && forall k :: a <= k < b ==> Hex(s[k]) || s[k] == '_'
    ensures Numbered(s, m, b, Sofar(s, a, m), value) <==> Numbered(s, a, b, 0, value)
    decreases m - a
  {
    hide HexDigit, Hex, HexValue;
    if a < m {
      NumberGoesOn(s, a, m - 1, b, value);
      LastDigit(s, a, m);
      if s[m - 1] != '_' {
        OneValue(s[m - 1]);
        assert HexDigit(s[m - 1], HexValue(s[m - 1]));
      }
    } else {
      assert s[a..m] == "";
    }
  }

  ghost function Sofar(s: string, a: int, m: int): int
    requires 0 <= a <= m <= |s| && forall k :: a <= k < m ==> Hex(s[k]) || s[k] == '_'
  {
    var code := CodePoint(s[a..m]);
    if code.None? then 0 else code.value
  }

  lemma LastDigit(s: string, a: int, m: int)
    requires 0 <= a < m <= |s| && forall k :: a <= k < m ==> Hex(s[k]) || s[k] == '_'
    ensures Sofar(s, a, m)
            == if s[m - 1] == '_' then Sofar(s, a, m - 1) else 16 * Sofar(s, a, m - 1) + HexValue(s[m - 1])
  {
    assert s[a..m][..m - a - 1] == s[a..m - 1];
  }

  /** There is a number as soon as there is a digit. */
  lemma {:induction false} SomeNumber(digits: string)
    requires forall k :: 0 <= k < |digits| ==> Hex(digits[k]) || digits[k] == '_'
    ensures CodePoint(digits).Some? <==> exists k :: 0 <= k < |digits| && digits[k] != '_'
  {
    if digits != "" {
      var before := digits[..|digits| - 1];
      SomeNumber(before);
      if k :| 0 <= k < |before| && before[k] != '_' {
        assert digits[k] != '_';
      }
      if k :| 0 <= k < |digits| && digits[k] != '_' {
        assert k == |digits| - 1 || before[k] != '_';
      }
    }
  }

  /** The braces of [i, e) hold the number `n`. */
  ghost predicate BracedNumber(s: string, i: int, e: int, n: int) {
    && Braced(s, i, e) && Numbered(s, i + 2, e - 1, 0, n)
    && exists k :: i + 2 <= k < e - 1 && s[k] != '_'
  }

  lemma BracedNumberExactly(s: string, i: int, e: int, n: int)
    requires 0 <= i <= |s|
    ensures UnicodeEnd(s, i) == Some(e) && UnicodeCode(s, i, e) == Some(n) <==> BracedNumber(s, i, e, n)
  {
    hide IsHex, Hex, Numbered, CodePoint, Braced;
    BracedExactly(s, i, e);
    if UnicodeEnd(s, i) == Some(e) {
      BracedHex(s, i, e);
      NumberGoesOn(s, i + 2, e - 1, e - 1, n);
      NothingLeft(s, e - 1, Sofar(s, i + 2, e - 1), n);
      var digits := s[i + 2..e - 1];
      SomeNumber(digits);
      if k :| i + 2 <= k < e - 1 && s[k] != '_' {
        assert digits[k - i - 2] != '_';
      }
      if k :| 0 <= k < |digits| && digits[k] != '_' {
        assert s[i + 2 + k] != '_';
      }
    }
  }

  lemma BracedHex(s: string, i: int, e: int)
    requires Braced(s, i, e)
    ensures 0 <= i && i + 2 < e - 1 < |s| && forall k :: i + 2 <= k < e - 1 ==> Hex(s[k]) || s[k] == '_'
  {
    hide IsHex, Hex;
    forall k | 0 <= k < |s| ensures Hex(s[k]) <==> IsHex(s[k]) {
      IsHexExactly(s[k]);
    }
  }

  lemma NothingLeft(s: string, a: int, n: int, value: int)
    requires 0 <= a <= |s|
    ensures Numbered(s, a, a, n, value) <==> n == value
  {
  }

  // ----- string literals --------------------------------------------------

  /** The letter after a backslash that stands for the code point `n`. */
  predicate Stands(c: char, n: int) {
    || (c == 'n' && n == 10) || (c == 'r' && n == 13) || (c == 't' && n == 9) || (c == '0' && n == 0)
    || (c in {'\\', '"', '\''} && n == c as int)
  }

  /** After a backslash, [i, e) is an escape that adds `value` to the string. */
  ghost predicate Escapes(s: string, i: int, e: int, value: string) {
    0 <= i < e <= |s| &&
    (|| (e == i + 1 && |value| == 1 && Stands(s[i], value[0] as int))
     || (e == i + 3 && s[i] == 'x' && |value| == 1 && TwoDigits(s[i + 1], s[i + 2], value[0] as int))
     || (|value| == 1 && BracedNumber(s, i, e, value[0] as int))
     || (value == "" && BreaksLine(s, i, e)))
  }

  ghost predicate TwoDigits(a: char, b: char, n: int) {
    exists h, l :: HexDigit(a, h) && HexDigit(b, l) && n == 16 * h + l
  }

  /** A line break and all the white space that follows it fill [i, e). */
  predicate BreaksLine(s: string, i: int, e: int) {
    && 0 <= i < e <= |s| && (s[i] == '\n' || (s[i] == '\r' && i + 1 < |s| && s[i + 1] == '\n'))
    && (forall k :: i <= k < e ==> Space(s[k])) && (e == |s| || !Space(s[e]))
  }

  /** The rest of a string literal, up to and with its closing quote: characters and escapes spell `value`. */
  ghost predicate Spells(s: string, i: int, e: int, value: string)
    decreases |s| - i
  {
    0 <= i < |s| &&
    if s[i] == '"' then e == i + 1 && value == ""
    else if s[i] != '\\' then value != "" && value[0] == s[i] && Spells(s, i + 1, e, value[1..])
    else exists j, n :: 0 <= n <= |value| && Escapes(s, i + 1, j, value[..n]) && Spells(s, j, e, value[n..])
  }

  lemma TwoDigitsExactly(a: char, b: char, n: int)
    requires Hex(a) && Hex(b)
    ensures TwoDigits(a, b, n) <==> n == 16 * HexValue(a) + HexValue(b)
  {
    OneValue(a);
    OneValue(b);
    hide HexDigit, Hex, HexValue;
    if n == 16 * HexValue(a) + HexValue(b) {
      assert HexDigit(a, HexValue(a)) && HexDigit(b, HexValue(b));
    }
  }

  lemma {:induction false} BreakExactly(s: string, i: int, e: int)
    requires 0 <= i <= e <= |s| && (forall k :: i <= k < e ==> Space(s[k])) && (e == |s| || !Space(s[e]))
    ensures SpacesEnd(s, i) == e
    decreases e - i
  {
    hide Space;
    if i < e {
      BreakExactly(s, i + 1, e);
    }
  }

  lemma FirstOfBraced(s: string, i: int, e: int, n: int)
    requires 0 <= i < |s|
    ensures BracedNumber(s, i, e, n) ==> s[i] == 'u'
  {
  }

  lemma FirstOfBreak(s: string, i: int, e: int)
    requires 0 <= i < |s|
    ensures BreaksLine(s, i, e) ==> s[i] == '\n' || s[i] == '\r'
  {
  }

  lemma LetterSpells(s: string, i: int, e: int, value: string)
    requires 0 <= i < |s|
    ensures SimpleEscape(s[i]).Some? <==> s[i] in "nrt0\\\"'"
    ensures SimpleEscape(s[i]).Some?
            ==> (EscapeAt(s, i) == Ok(Escape(value, e)) <==>
                 e == i + 1 && |value| == 1 && Stands(s[i], value[0] as int))
    ensures |value| == 1 && Stands(s[i], value[0] as int) ==> SimpleEscape(s[i]).Some?
  {
    hide UnicodeEnd, UnicodeCode, Hex, HexValue, Space;
    if |value| == 1 {
      assert value == [value[0]];
    }
  }

  lemma HexSpells(s: string, i: int, e: int, value: string)
    requires 0 <= i < |s| && s[i] == 'x'
    ensures EscapeAt(s, i) == Ok(Escape(value, e))
            <==> e == i + 3 && e <= |s| && |value| == 1 && TwoDigits(s[i + 1], s[i + 2], value[0] as int)
  {
    hide UnicodeEnd, UnicodeCode, Space, TwoDigits, IsHex;
    if |value| == 1 {
      assert value == [value[0]];
    }
    if i + 2 < |s| {
      IsHexExactly(s[i + 1]);
      IsHexExactly(s[i + 2]);
      DigitsAreHex(s[i + 1], s[i + 2], if |value| == 1 then value[0] as int else 0);
    }
  }

  lemma DigitsAreHex(a: char, b: char, n: int)
    ensures TwoDigits(a, b, n) ==> Hex(a) && Hex(b)
    ensures Hex(a) && Hex(b) ==> (TwoDigits(a, b, n) <==> n == 16 * HexValue(a) + HexValue(b))
  {
    if Hex(a) && Hex(b) {
      TwoDigitsExactly(a, b, n);
    }
  }

  lemma CodeSpells(s: string, i: int, e: int, value: string)
    requires 0 <= i < |s| && s[i] == 'u'
    ensures EscapeAt(s, i) == Ok(Escape(value, e)) <==> |value| == 1 && BracedNumber(s, i, e, value[0] as int)
  {
    hide UnicodeEnd, UnicodeCode, Hex, HexValue, Space, BracedNumber;
    if |value| == 1 {
      assert value == [value[0]];
    }
    BracedNumberExactly(s, i, e, if |value| == 1 then value[0] as int else 0);
  }

  lemma BreakSpells(s: string, i: int, e: int, value: string)
    requires 0 <= i < |s| && (s[i] == '\n' || s[i] == '\r')
    ensures EscapeAt(s, i) == Ok(Escape(value, e)) <==> value == "" && BreaksLine(s, i, e)
  {
    hide UnicodeEnd, UnicodeCode, Hex, HexValue, SimpleEscape, Space;
    LetterSpells(s, i, e, value);
    assert Space(s[i]) by { LineBreakIsSpace(s[i]); }
    if BreaksLine(s, i, e) {
      BreakExactly(s, i, e);
    }
  }

  lemma LineBreakIsSpace(c: char)
    requires c == '\n' || c == '\r'
    ensures Space(c)
  {
  }

  /** An escape is decoded to `value` exactly when it spells it. */
  lemma EscapeSpells(s: string, i: int, e: int, value: string)
    requires 0 <= i <= |s|
    ensures EscapeAt(s, i) == Ok(Escape(value, e)) <==> Escapes(s, i, e, value)
  {
    hide BracedNumber, TwoDigits, Hex, HexValue, Space, BreaksLine, SimpleEscape;
    if i < |s| {
      FirstOfBraced(s, i, e, if |value| == 1 then value[0] as int else 0);
      FirstOfBreak(s, i, e);
      LetterSpells(s, i, e, value);
      if s[i] == 'x' {
        HexSpells(s, i, e, value);
      } else if s[i] == 'u' {
        CodeSpells(s, i, e, value);
      } else if s[i] == '\n' || s[i] == '\r' {
        BreakSpells(s, i, e, value);
      }
    }
  }

  /** Decoding gives a value and an end exactly when the characters and escapes up to that end spell the value. */
  lemma {:induction false} DecodeSpells(s: string, i: int, e: int, value: string)
    requires 0 <= i <= |s|
    ensures Decode(s, i) == Ok(Escape(value, e)) <==> Spells(s, i, e, value)
    decreases |s| - i
  {
    hide EscapeAt, Escapes;
    if i < |s| && s[i] != '"' {
      if s[i] != '\\' {
        DecodeSpells(s, i + 1, e, if value == "" then "" else value[1..]);
        PutFirst(s[i], Decode(s, i + 1), e, value);
      } else {
        if Decode(s, i) == Ok(Escape(value, e)) {
          var j, n := DecodedEscape(s, i, e, value);
          EscapeSpells(s, i + 1, j, value[..n]);
          DecodeSpells(s, j, e, value[n..]);
        }
        if Spells(s, i, e, value) {
          var j, n := SpelledEscape(s, i, e, value);
          EscapeSpells(s, i + 1, j, value[..n]);
          DecodeSpells(s, j, e, value[n..]);
          PutEscape(s, i, j, n, e, value);
        }
      }
    }
  }

  lemma SpelledEscape(s: string, i: int, e: int, value: string) returns (j: int, n: int)
    requires 0 <= i < |s| && s[i] == '\\' && Spells(s, i, e, value)
    ensures 0 <= n <= |value| && Escapes(s, i + 1, j, value[..n]) && Spells(s, j, e, value[n..])
  {
    hide Escapes;
    j, n :| 0 <= n <= |value| && Escapes(s, i + 1, j, value[..n]) && Spells(s, j, e, value[n..]);
  }

  lemma DecodedEscape(s: string, i: int, e: int, value: string) returns (j: int, n: int)
    requires 0 <= i < |s| && s[i] == '\\' && Decode(s, i) == Ok(Escape(value, e))
    ensures i < j <= |s| && 0 <= n <= |value| && EscapeAt(s, i + 1) == Ok(Escape(value[..n], j))
    ensures Decode(s, j) == Ok(Escape(value[n..], e))
  {
    hide EscapeAt;
    var escape := EscapeAt(s, i + 1).value;
    j, n := escape.end, |escape.value|;
    assert value[..n] == escape.value;
  }

  lemma PutEscape(s: string, i: int, j: int, n: int, e: int, value: string)
    requires 0 <= i < |s| && s[i] == '\\' && 0 <= n <= |value| && EscapeAt(s, i + 1) == Ok(Escape(value[..n], j))
    requires 0 <= j <= |s| && Decode(s, j) == Ok(Escape(value[n..], e))
    ensures Decode(s, i) == Ok(Escape(value, e))
  {
    hide EscapeAt;
    assert value[..n] + value[n..] == value;
  }

  lemma PutFirst(c: char, r: Result<Escape, string>, e: int, value: string)
    ensures Prefixed([c], r) == Ok(Escape(value, e))
            <==> value != "" && value[0] == c && r == Ok(Escape(value[1..], e))
  {
    if value != "" {
      assert value == [value[0]] + value[1..];
    }
    if r.Ok? {
      assert ([c] + r.value.value)[1..] == r.value.value;
    }
  }

  // ----- raw strings ------------------------------------------------------

  /** `r`, `br` or `cr` at `i`, then `h` hashes and a quote; the body starts at `b`. */
  predicate RawOpens(s: string, i: int, h: int, b: int) {
    var p := b - h - 1;
    && 0 <= i < p <= p + h < b <= |s|
    && ((p == i + 1 && s[i] == 'r') || (p == i + 2 && s[i] in {'b', 'c'} && s[i + 1] == 'r'))
    && (forall k :: p <= k < p + h ==> s[k] == '#') && s[p + h] == '"'
  }

  /** A quote at `c` and `h` hashes after it. */
  predicate RawCloses(s: string, c: int, h: int) {
    0 <= h && 0 <= c && c + h < |s| && s[c] == '"' && forall k :: c < k <= c + h ==> s[k] == '#'
  }

  /** A raw string fills [i, e): it ends at the first quote with as many hashes as it has before its body. */
  ghost predicate RawString(s: string, i: int, e: int, value: string) {
    exists h, b :: RawOpens(s, i, h, b) && RawBody(s, b, h, e, value)
  }

  ghost predicate RawBody(s: string, b: int, h: int, e: int, value: string) {
    var c := e - h - 1;
    && 0 <= b <= c && 0 <= h && RawCloses(s, c, h) && value == s[b..c]
    && forall k :: b <= k < c ==> !RawCloses(s, k, h)
  }

  lemma {:induction false} HashesEnd(s: string, a: int, e: int)
    requires 0 <= a <= e < |s| && (forall k :: a <= k < e ==> s[k] == '#') && s[e] == '"'
    ensures RunEnd(s, a, '#') == e
    decreases e - a
  {
    if a < e {
      HashesEnd(s, a + 1, e);
    }
  }

  lemma RawOpenerExactly(s: string, i: int, h: int, b: int)
    requires 0 <= i < |s|
    ensures RawOpener(s, i) == Some((b, h)) <==> RawOpens(s, i, h, b)
  {
    if RawOpens(s, i, h, b) {
      HashesEnd(s, b - h - 1, b - 1);
    }
  }

  lemma RawCloserExactly(s: string, c: int, h: int)
    requires 0 <= h
    ensures RawCloser(s, c, h) <==> RawCloses(s, c, h)
  {
  }

  lemma RawBodyExactly(s: string, b: int, h: int, e: int, value: string)
    requires 0 <= b <= |s| && 0 <= h
    ensures FindRawCloser(s, b, h) == Some(e - h - 1) && b <= e - h - 1 <= |s| && value == s[b..e - h - 1]
            <==> RawBody(s, b, h, e, value)
  {
    hide RawCloser;
    forall c ensures RawCloser(s, c, h) <==> RawCloses(s, c, h) {
      RawCloserExactly(s, c, h);
    }
  }

  // ----- the other tokens -------------------------------------------------

  /** A quote at `i`, with a `b` or `c` before it or not; the body starts at `b`. */
  predicate PlainOpens(s: string, i: int, b: int) {
    && 0 <= i < b <= |s| && s[b - 1] == '"'
    && (b == i + 1 || (b == i + 2 && s[i] in {'b', 'c'}))
  }

  ghost predicate StringOpens(s: string, i: int) {
    (exists h, b :: RawOpens(s, i, h, b)) || exists b :: PlainOpens(s, i, b)
  }

  ghost predicate StringToken(s: string, i: int, e: int, value: string) {
    RawString(s, i, e, value) || exists b :: PlainOpens(s, i, b) && Spells(s, b, e, value)
  }

  /** Quote, one character or one escape, quote: the form of a character literal that fills [i, e). An escape is
      `u{...}`, `x` and two digits, or any one character but a newline. */
  ghost predicate CharLiteral(s: string, i: int, e: int) {
    && 0 <= i && i + 3 <= e <= |s| && s[i] == '\'' && s[e - 1] == '\''
    && (|| (e == i + 3 && s[i + 1] != '\'' && s[i + 1] != '\\')
        || (s[i + 1] == '\\' &&
            (|| (e == i + 4 && s[i + 2] != '\n')
             || (e == i + 6 && s[i + 2] == 'x' && IsHex(s[i + 3]) && IsHex(s[i + 4]))
             || Braced(s, i + 2, e - 1))))
  }

  /** The longest word at `i`, without its `r#` if it has one and a word after it. */
  predicate Word(s: string, i: int, e: int, value: string) {
    0 <= i < |s| &&
    var a := if s[i] == 'r' && i + 2 < |s| && s[i + 1] == '#' && Letter(s[i + 2]) then i + 2 else i;
    && Letter(s[a]) && a < e <= |s| && value == s[a..e]
    && (forall k :: a <= k < e ==> LetterOrDigit(s[k])) && (e == |s| || !LetterOrDigit(s[e]))
  }

  /** White space or a comment starts at `i`. */
  predicate TriviaStarts(s: string, i: int) {
    0 <= i < |s| && (Space(s[i]) || (s[i] == '/' && i + 1 < |s| && s[i + 1] in {'/', '*'}))
  }

  /** By the grammar the token that starts at `i` is of this kind and value and ends at `e`. */
  ghost predicate IsLexeme(s: string, i: int, kind: Kind, value: string, e: int)
    requires 0 <= i < |s|
  {
    match kind
    case Str => StringToken(s, i, e, value)
    case Chr => value == "" && CharLiteral(s, i, e)
    case Ident => Word(s, i, e, value) && !StringOpens(s, i)
    case Punct =>
      && e == i + 1 && value == [s[i]]
      && !TriviaStarts(s, i) && !StringOpens(s, i) && !Letter(s[i]) && forall c :: !CharLiteral(s, i, c)
  }

  lemma CharExactly(s: string, i: int, e: int)
    requires 0 <= i < |s|
    ensures s[i] == '\'' && CharEnd(s, i) == Some(e) <==> CharLiteral(s, i, e)
  {
    hide IsHex, UnicodeEnd, Braced;
    forall k | 0 <= k < |s| ensures Hex(s[k]) <==> IsHex(s[k]) {
      IsHexExactly(s[k]);
    }
    BracedExactly(s, i + 2, e - 1);
    FirstOfBraces(s, i + 2, e - 1);
    var u := UnicodeEnd(s, i + 2);
    if u.Some? {
      BracedExactly(s, i + 2, u.value);
      FirstOfBraces(s, i + 2, u.value);
    }
  }

  lemma FirstOfBraces(s: string, i: int, e: int)
    ensures Braced(s, i, e) ==> 0 <= i && i + 4 <= e <= |s| && s[i] == 'u' && s[i + 1] == '{'
  {
  }

  lemma {:induction false} IdentRunIs(s: string, i: int, e: int)
    requires 0 <= i <= e <= |s| && (forall k :: i <= k < e ==> IdentPart(s[k])) && (e == |s| || !IdentPart(s[e]))
    ensures IdentRun(s, i) == e
    decreases e - i
  {
    if i < e {
      IdentRunIs(s, i + 1, e);
    }
  }

  lemma WordExactly(s: string, i: int, e: int, value: string)
    requires 0 <= i < |s|
    ensures Word(s, i, e, value) <==> ReadsWord(s, i, e, value)
  {
    if Word(s, i, e, value) {
      IdentRunIs(s, WordStart(s, i).value, e);
    }
  }

  predicate ReadsWord(s: string, i: int, e: int, value: string)
    requires 0 <= i < |s|
  {
    WordStart(s, i).Some? &&
    var start := WordStart(s, i).value;
    0 <= start < |s| && e == IdentRun(s, start) && value == s[start..e]
  }

  // ----- the lexer reads the grammar --------------------------------------

  lemma OpenersExactly(s: string, i: int)
    requires 0 <= i < |s|
    ensures RawOpener(s, i).Some? || StringOpener(s, i).Some? <==> StringOpens(s, i)
    ensures StringOpens(s, i) ==> !TriviaStarts(s, i) && s[i] != '\''
  {
    var raw, plain := RawOpener(s, i), StringOpener(s, i);
    forall h, b ensures raw == Some((b, h)) <==> RawOpens(s, i, h, b) {
      RawOpenerExactly(s, i, h, b);
    }
    forall b ensures plain == Some(b) <==> PlainOpens(s, i, b) {
    }
    hide RawOpener, StringOpener;
    if raw.Some? {
      assert RawOpens(s, i, raw.value.1, raw.value.0);
    }
    if plain.Some? {
      assert PlainOpens(s, i, plain.value);
    }
  }

  /** A piece is skipped exactly when it is white space or a comment. */
  lemma GapExactly(s: string, i: int, e: int)
    requires 0 <= i < |s|
    ensures NextPiece(s, i) == Gap(e) <==> TriviaPiece(s, i, e)
  {
    hide NextPiece, TriviaPiece;
    if NextPiece(s, i) == Gap(e) {
      GapIsTrivia(s, i);
    }
    if TriviaPiece(s, i, e) {
      PieceIsSkipped(s, i, e);
    }
  }

  /** At a string opener the lexer reads a string, or nothing. */
  lemma StringExactly(s: string, i: int, e: int, value: string)
    requires 0 <= i < |s|
    ensures NextPiece(s, i) == Lexeme(Str, value, e) <==> StringToken(s, i, e, value)
  {
    hide RawOpener, StringOpener, Decode, Spells, RawBody, BlockEnd, FindRawCloser, RawOpens, PlainOpens;
    hide CharEnd, WordStart, IdentRun, TriviaStarts, StringOpens, LineEnd, RawCloser;
    OpenersExactly(s, i);
    ClearOfTrivia(s, i);
    OneOpener(s, i);
    var raw, plain := RawOpener(s, i), StringOpener(s, i);
    if raw.Some? {
      var (b, h) := raw.value;
      RawOpenerExactly(s, i, h, b);
      RawBodyExactly(s, b, h, e, value);
      RawEnd(s, b, h);
    } else if plain.Some? {
      DecodeSpells(s, plain.value, e, value);
    }
  }

  lemma ClearOfTrivia(s: string, i: int)
    requires 0 <= i < |s|
    ensures TriviaStarts(s, i) <==> Space(s[i]) || Two(s, i, '/', '/') || Two(s, i, '/', '*')
  {
  }

  /** A string has one way to open. */
  lemma OneOpener(s: string, i: int)
    requires 0 <= i < |s|
    ensures forall h, b :: RawOpens(s, i, h, b) ==> RawOpener(s, i) == Some((b, h))
    ensures forall b :: PlainOpens(s, i, b) ==> StringOpener(s, i) == Some(b) && RawOpener(s, i).None?
    ensures RawOpener(s, i).Some? ==> RawOpens(s, i, RawOpener(s, i).value.1, RawOpener(s, i).value.0)
    ensures StringOpener(s, i).Some? ==> PlainOpens(s, i, StringOpener(s, i).value)
  {
    forall h, b ensures RawOpener(s, i) == Some((b, h)) <==> RawOpens(s, i, h, b) {
      RawOpenerExactly(s, i, h, b);
    }
  }

  lemma RawEnd(s: string, b: int, h: int)
    requires 0 <= b <= |s| && 0 <= h
    ensures var c := FindRawCloser(s, b, h); c.Some? ==> b <= c.value && c.value + h < |s|
  {
  }

  /** The grammar theorem: the lexer reads a token of a kind, a value and an end exactly when the grammar has it. */
  lemma PieceExactly(s: string, i: int, kind: Kind, value: string, e: int)
    requires 0 <= i < |s|
    ensures NextPiece(s, i) == Lexeme(kind, value, e) <==> IsLexeme(s, i, kind, value, e)
  {
    match kind
    case Str => StringExactly(s, i, e, value);
    case Chr => CharPiece(s, i, e, value);
    case Ident => WordPiece(s, i, e, value);
    case Punct => PunctPiece(s, i, e, value);
  }

  lemma CharPiece(s: string, i: int, e: int, value: string)
    requires 0 <= i < |s|
    ensures NextPiece(s, i) == Lexeme(Chr, value, e) <==> value == "" && CharLiteral(s, i, e)
  {
    OpenersExactly(s, i);
    ClearOfTrivia(s, i);
    CharExactly(s, i, e);
    QuoteIsNoSpace();
    hide RawOpener, StringOpener, Decode, BlockEnd, FindRawCloser, CharEnd, WordStart, IdentRun, StringOpens;
    hide TriviaStarts, Space, LineEnd;
    FirstOfChar(s, i, e);
  }

  lemma QuoteIsNoSpace()
    ensures !Space('\'')
  {
  }

  lemma FirstOfChar(s: string, i: int, e: int)
    ensures CharLiteral(s, i, e) ==> 0 <= i < |s| && s[i] == '\''
  {
  }

  lemma WordPiece(s: string, i: int, e: int, value: string)
    requires 0 <= i < |s|
    ensures NextPiece(s, i) == Lexeme(Ident, value, e) <==> Word(s, i, e, value) && !StringOpens(s, i)
  {
    OpenersExactly(s, i);
    ClearOfTrivia(s, i);
    WordExactly(s, i, e, value);
    LetterStands(s, i);
    hide RawOpener, StringOpener, Decode, BlockEnd, FindRawCloser, CharEnd, WordStart, IdentRun, StringOpens;
    hide TriviaStarts, Space, LineEnd, Word;
  }

  /** A word starts with a letter, where neither trivia nor a character literal starts. */
  lemma LetterStands(s: string, i: int)
    requires 0 <= i < |s|
    ensures WordStart(s, i).Some? <==> Letter(s[i])
    ensures Letter(s[i]) ==> !TriviaStarts(s, i) && s[i] != '\''
    ensures WordStart(s, i).Some? ==> 0 <= WordStart(s, i).value < |s|
  {
  }

  lemma PunctPiece(s: string, i: int, e: int, value: string)
    requires 0 <= i < |s|
    ensures NextPiece(s, i) == Lexeme(Punct, value, e) <==> IsLexeme(s, i, Punct, value, e)
  {
    OpenersExactly(s, i);
    ClearOfTrivia(s, i);
    LetterStands(s, i);
    forall c ensures s[i] == '\'' && CharEnd(s, i) == Some(c) <==> CharLiteral(s, i, c) {
      CharExactly(s, i, c);
    }
    hide RawOpener, StringOpener, Decode, BlockEnd, FindRawCloser, CharEnd, WordStart, IdentRun, StringOpens;
    hide TriviaStarts, Space, LineEnd, CharLiteral, Letter;
    if CharEnd(s, i).Some? {
      assert s[i] == '\'' ==> CharLiteral(s, i, CharEnd(s, i).value);
    }
  }

  /** The lexer refuses to go on exactly at a comment that no closers end, and at a string that no characters, escapes
      and closing quote make whole. */
  lemma BadExactlyAt(s: string, i: int)
    requires 0 <= i < |s|
    ensures NextPiece(s, i).Bad?
            <==> (Two(s, i, '/', '*') && Unclosed(s, i))
                 || (StringOpens(s, i) && forall e, value :: !StringToken(s, i, e, value))
  {
    OpensString(s, i);
    BadExactly(s, i);
    OpenersExactly(s, i);
    ClearOfTrivia(s, i);
    forall e, value ensures NextPiece(s, i) == Lexeme(Str, value, e) <==> StringToken(s, i, e, value) {
      StringExactly(s, i, e, value);
    }
    hide NextPiece, StringToken, StringOpens, Block, BadString, RawOpener, StringOpener, TriviaStarts, RawCloser;
    var p := NextPiece(s, i);
    if p.Lexeme? && p.kind == Str {
      assert StringToken(s, i, p.end, p.value);
    }
    if StringOpens(s, i) {
      assert p.Bad? <==> forall e, value :: !StringToken(s, i, e, value);
    } else {
      assert p.Bad? <==> Two(s, i, '/', '*') && Unclosed(s, i);
    }
  }

  lemma OpensString(s: string, i: int)
    requires 0 <= i < |s|
    ensures StringOpens(s, i) ==> NextPiece(s, i).Bad? || (NextPiece(s, i).Lexeme? && NextPiece(s, i).kind == Str)
  {
    OpenersExactly(s, i);
    ClearOfTrivia(s, i);
    hide RawOpener, StringOpener, Decode, BlockEnd, FindRawCloser, CharEnd, WordStart, IdentRun, StringOpens;
    hide TriviaStarts, Space, LineEnd;
  }

  /** What a described token is, by the grammar. */
  lemma DescribesExactly(s: string, t: Token, span: Span)
    ensures Describes(s, t, span)
            <==> 0 <= span.start < span.end <= |s| && IsLexeme(s, span.start, t.kind, t.value, span.end)
                 && t.text == s[span.start..span.end] && t.line == Newlines(s, span.start) + 1
                 && t.column == span.start - LineStart(s, span.start) + 1
  {
    hide NextPiece, IsLexeme;
    if 0 <= span.start < span.end <= |s| {
      PieceExactly(s, span.start, t.kind, t.value, span.end);
    }
  }
}
