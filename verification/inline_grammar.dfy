/** The inline forms by the characters of a line: labels, the noise taken out before they are counted, and the
    values. */
module InlineGrammar {
  import opened Wrappers
  import opened Chars
  import opened MarkdownLines
  import opened HiddenBlocks
  import opened HeadingForms
  import opened InlineForms

  // ----- labels -----------------------------------------------------------

  /** Two stars at most in [a, b), with white space in [start, a) and in [b, end). */
  predicate Starred(line: string, start: nat, a: nat, b: nat, end: nat) {
    White(line, start, a) && Filled(line, a, b, '*') && b - a <= 2 && White(line, b, end)
  }

  /** The word at `i`, then white space and two stars at most, then the colon just before `e`. */
  ghost predicate LabelSpelled(line: string, i: nat, e: nat) {
    SaysStatus(line, i) && exists a: nat, b: nat :: ColonAfter(line, i, a, b, e)
  }

  predicate ColonAfter(line: string, i: nat, a: nat, b: nat, e: nat) {
    0 < e <= |line| && Starred(line, i + 6, a, b, e - 1) && line[e - 1] == ':'
  }

  lemma {:induction false} WhiteEnds(line: string, a: nat, b: nat)
    requires White(line, a, b) && (b == |line| || !Space(line[b]))
    ensures SpacesEnd(line, a) == b
    decreases b - a
  {
    if a < b {
      WhiteEnds(line, a + 1, b);
    }
  }

  /** What is read greedily is the one way to read it: no star is white space, and the next character is neither. */
  lemma StarredIsRead(line: string, start: nat, a: nat, b: nat, end: nat)
    requires Starred(line, start, a, b, end) && end < |line| && !Space(line[end]) && line[end] != '*'
    ensures SpacesEnd(line, StarsEnd(line, SpacesEnd(line, start))) == end
  {
    StarIsNoSpace();
    if a == b {
      WhiteEnds(line, start, end);
      WhiteEnds(line, end, end);
    } else {
      WhiteEnds(line, start, a);
      WhiteEnds(line, b, end);
      assert b < |line| && line[b] != '*';
    }
  }

  lemma StarIsNoSpace()
    ensures !Space('*') && !Space('-') && !Space(':')
  {
  }

  lemma WordExactly(line: string, i: nat)
    ensures WordAt(line, i) <==> SaysStatus(line, i)
  {
    if i + 6 <= |line| {
      var word := line[i..i + 6];
      assert forall k :: 0 <= k < 6 ==> word[k] == line[i + k];
      LowerIs(word);
    }
  }

  lemma LabelExactly(line: string, i: nat, e: nat)
    ensures LabelEnd(line, i) == Some(e) <==> LabelSpelled(line, i, e)
  {
    hide Space, Lower;
    WordExactly(line, i);
    StarIsNoSpace();
    if LabelEnd(line, i) == Some(e) {
      var a := SpacesEnd(line, i + 6);
      assert ColonAfter(line, i, a, StarsEnd(line, a), e);
    }
    if LabelSpelled(line, i, e) {
      var a: nat, b: nat :| ColonAfter(line, i, a, b, e);
      StarredIsRead(line, i + 6, a, b, e - 1);
    }
  }

  /** White space, a dash and white space or neither, two stars at most, white space: all that may come before the label
      at the start of a line, up to `w`. */
  ghost predicate Led(line: string, w: nat) {
    exists d: nat, j: nat, a: nat, b: nat :: LedBy(line, d, j, a, b, w)
  }

  predicate LedBy(line: string, d: nat, j: nat, a: nat, b: nat, w: nat) {
    && White(line, 0, d) && (j == d || (At(line, d, '-') && j == d + 1)) && a <= b <= w <= |line|
    && Starred(line, j, a, b, w)
  }

  ghost predicate StartsWithLabel(line: string) {
    exists w: nat, e: nat :: Led(line, w) && LabelSpelled(line, w, e)
  }

  lemma LedIsRead(line: string, w: nat)
    requires Led(line, w) && w < |line| && !Space(line[w]) && line[w] != '*' && line[w] != '-'
    ensures FirstWord(line) == w
  {
    hide Space;
    StarIsNoSpace();
    var d: nat, j: nat, a: nat, b: nat :| LedBy(line, d, j, a, b, w);
    StarredIsRead(line, j, a, b, w);
    if j == d {
      var s := if a == b then w else a;
      WhiteEnds(line, 0, s);
      WhiteEnds(line, s, s);
      assert a == b ==> White(line, 0, w);
    } else {
      WhiteEnds(line, 0, d);
      SpacesOnce(line, j);
    }
  }

  lemma SpacesOnce(line: string, j: nat)
    requires j <= |line|
    ensures SpacesEnd(line, SpacesEnd(line, j)) == SpacesEnd(line, j)
  {
  }

  lemma WordStarts(line: string, w: nat)
    requires SaysStatus(line, w)
    ensures w < |line| && !Space(line[w]) && line[w] != '*' && line[w] != '-'
  {
    LetterIsNoSpace(line[w], 's');
  }

  /** The white space and the stars that `FirstWord` passes. */
  lemma FirstWordIsLed(line: string)
    ensures Led(line, FirstWord(line))
  {
    hide Space;
    var d := SpacesEnd(line, 0);
    if At(line, d, '-') {
      var a := SpacesEnd(line, d + 1);
      assert LedBy(line, d, d + 1, a, StarsEnd(line, a), FirstWord(line));
    } else {
      assert LedBy(line, d, d, d, StarsEnd(line, d), FirstWord(line));
    }
  }

  /** A line declares inline exactly when it starts with a label. */
  lemma LabelledExactly(line: string)
    ensures Labelled(line) <==> StartsWithLabel(line)
  {
    hide Space, FirstWord, LabelEnd, LabelSpelled, Led;
    FirstWordIsLed(line);
    if Labelled(line) {
      LabelExactly(line, FirstWord(line), LabelEnd(line, FirstWord(line)).value);
    }
    if w: nat, e: nat :| Led(line, w) && LabelSpelled(line, w, e) {
      LabelSays(line, w, e);
      WordStarts(line, w);
      LedIsRead(line, w);
      LabelExactly(line, w, e);
    }
  }

  lemma LabelSays(line: string, i: nat, e: nat)
    requires LabelSpelled(line, i, e)
    ensures SaysStatus(line, i) && i < e <= |line|
  {
  }

  // ----- labels anywhere --------------------------------------------------

  /** A label anywhere: two stars, one or none, and then the word; without a star no letter, digit or underscore comes
      before it. */
  ghost predicate LabelFrom(line: string, s: nat, e: nat) {
    exists w: nat :: LabelFromAt(line, s, w, e)
  }

  ghost predicate LabelFromAt(line: string, s: nat, w: nat, e: nat) {
    s <= w <= s + 2 && Filled(line, s, w, '*') && LabelSpelled(line, w, e) && (w > s || AtWordEdge(line, s))
  }

  predicate AtWordEdge(line: string, s: nat) {
    s == 0 || (s <= |line| && !(('a' <= line[s - 1] <= 'z') || ('A' <= line[s - 1] <= 'Z')
                                || ('0' <= line[s - 1] <= '9') || line[s - 1] == '_'))
  }

  lemma LabelAtExactly(line: string, s: nat, e: nat)
    ensures LabelAt(line, s) == Some(e) <==> LabelFrom(line, s, e)
  {
    hide LabelEnd, LabelSpelled, SaysStatus, Space, WordChar;
    forall w: nat, x: nat ensures LabelEnd(line, w) == Some(x) <==> LabelSpelled(line, w, x) {
      LabelExactly(line, w, x);
    }
    forall w: nat, x: nat | LabelSpelled(line, w, x) ensures w < |line| && line[w] != '*' {
      LabelSays(line, w, x);
      WordStarts(line, w);
    }
    EdgeExactly(line, s);
    if LabelAt(line, s) == Some(e) {
      var w := if At(line, s, '*') && At(line, s + 1, '*') && LabelEnd(line, s + 2).Some? then s + 2
               else if At(line, s, '*') && LabelEnd(line, s + 1).Some? then s + 1 else s;
      assert LabelSpelled(line, w, e) && w <= |line|;
      assert LabelFromAt(line, s, w, e);
    }
    if LabelFrom(line, s, e) {
      var w: nat :| LabelFromAt(line, s, w, e);
    }
  }

  lemma EdgeExactly(line: string, s: nat)
    ensures AtWordEdge(line, s) <==> s == 0 || (s <= |line| && !WordChar(line[s - 1]))
  {
  }

  /** From `i` on the labels are found from left to right, none overlapping and none passed over. */
  ghost predicate Finds(line: string, i: nat, ls: seq<Label>)
    decreases |ls|
  {
    if ls == [] then forall s: nat, e: nat :: i <= s < |line| ==> !LabelFrom(line, s, e)
    else
      && i <= ls[0].start < ls[0].end <= |line| && LabelFrom(line, ls[0].start, ls[0].end)
      && (forall s: nat, e: nat :: i <= s < ls[0].start ==> !LabelFrom(line, s, e))
      && Finds(line, ls[0].end, ls[1..])
  }

  lemma {:induction false} LabelsAreFound(line: string, i: nat)
    ensures Finds(line, i, Labels(line, i))
    decreases |line| - i
  {
    hide LabelAt, LabelFrom;
    if i < |line| {
      forall e: nat ensures LabelAt(line, i) == Some(e) <==> LabelFrom(line, i, e) {
        LabelAtExactly(line, i, e);
      }
      if LabelAt(line, i).Some? {
        LabelsAreFound(line, LabelAt(line, i).value);
        var ls := Labels(line, i);
        assert ls[1..] == Labels(line, ls[0].end);
      } else {
        LabelsAreFound(line, i + 1);
      }
    }
  }

  // ----- noise ------------------------------------------------------------

  /** `n` backticks at `i`. */
  predicate Ticks(line: string, i: nat, n: nat) {
    Filled(line, i, i + n, '`')
  }

  /** A code span fills [i, e): `n` backticks, then up to the first `n` backticks that follow, and those. */
  predicate Span(line: string, i: nat, n: nat, e: nat) {
    && 0 < n <= e && i + n <= e - n && Ticks(line, i, n) && Ticks(line, e - n, n)
    && forall x: nat :: i + n <= x < e - n ==> !Ticks(line, x, n)
  }

  /** `n` backticks at `i` that never come again. */
  predicate Alone(line: string, i: nat, n: nat) {
    Ticks(line, i, n) && forall x: nat :: i + n <= x < |line| ==> !Ticks(line, x, n)
  }

  /** A span opens with as many backticks as there are and as come again. */
  ghost predicate CodeNoise(line: string, i: nat, e: nat) {
    exists n: nat :: Span(line, i, n, e) && forall m: nat :: n < m && Ticks(line, i, m) ==> Alone(line, i, m)
  }

  /** A parenthesis at `i`, its closer at `k` and no parenthesis between them. */
  predicate Group(line: string, i: nat, k: nat) {
    && i < k < |line| && line[i] == '(' && line[k] == ')'
    && forall x :: i < x < k ==> line[x] != '(' && line[x] != ')'
  }

  /** Groups and other characters up to the closing parenthesis just before `e`. */
  ghost predicate Destination(line: string, i: nat, e: nat)
    decreases |line| - i
  {
    i < |line| &&
    if line[i] == ')' then e == i + 1
    else if line[i] == '(' then exists k: nat :: Group(line, i, k) && Destination(line, k + 1, e)
    else Destination(line, i + 1, e)
  }

  ghost predicate LinkNoise(line: string, i: nat, e: nat) {
    i + 1 < |line| && line[i] == ']' && line[i + 1] == '(' && Destination(line, i + 2, e)
  }

  predicate SchemeChar(c: char) {
    'a' <= c <= 'z' || 'A' <= c <= 'Z' || '0' <= c <= '9' || c in {'+', '.', '-'}
  }

  predicate UrlChar(c: char) {
    c != '<' && c != '>' && !Space(c)
  }

  /** `<`, a letter, one to 31 more characters of a scheme, a colon at `c`, no white space or angle bracket, and `>`. */
  predicate Link(line: string, i: nat, c: nat, e: nat) {
    && i + 3 <= c <= i + 33 && c + 2 <= e <= |line| && line[i] == '<' && line[c] == ':' && line[e - 1] == '>'
    && ('a' <= line[i + 1] <= 'z' || 'A' <= line[i + 1] <= 'Z')
    && (forall x :: i + 2 <= x < c ==> SchemeChar(line[x])) && forall x :: c < x < e - 1 ==> UrlChar(line[x])
  }

  ghost predicate LinkedNoise(line: string, i: nat, e: nat) {
    exists c: nat :: Link(line, i, c, e)
  }

  ghost predicate NoiseFills(kind: Noise, line: string, i: nat, e: nat) {
    match kind
    case CodeSpan => CodeNoise(line, i, e)
    case LinkDestination => LinkNoise(line, i, e)
    case Autolink => LinkedNoise(line, i, e)
  }

  lemma {:induction false} TicksFound(line: string, j: nat, n: nat, r: nat)
    requires n > 0
    ensures FindTicks(line, j, n) == Some(r) <==>
            j <= r && Ticks(line, r, n) && forall x: nat :: j <= x < r ==> !Ticks(line, x, n)
    ensures FindTicks(line, j, n).None? <==> forall x: nat :: j <= x ==> !Ticks(line, x, n)
    decreases |line| - j
  {
    assert TicksAt(line, j, n) <==> Ticks(line, j, n);
    hide TicksAt, Ticks;
    if !Ticks(line, j, n) {
      if j >= |line| {
        PastTheEnd(line, j, n);
      } else {
        TicksFound(line, j + 1, n, r);
      }
    }
  }

  lemma PastTheEnd(line: string, j: nat, n: nat)
    requires j >= |line| && n > 0
    ensures forall x: nat :: j <= x ==> !Ticks(line, x, n)
  {
  }

  /** A span found for the first `n` backticks, or for fewer: the longest that come again. */
  lemma {:induction false} SpanFound(line: string, i: nat, n: nat, e: nat)
    requires Ticks(line, i, n)
    ensures SpanEnd(line, i, n) == Some(e) <==>
            exists k: nat :: k <= n && Span(line, i, k, e) && forall m: nat :: k < m <= n ==> Alone(line, i, m)
    decreases n
  {
    hide TicksAt, Span, Alone;
    if n > 0 {
      SpanFound(line, i, n - 1, e);
      OneSpan(line, i, n, e);
    } else {
      NoEmptySpan(line, i, e);
    }
  }

  lemma NoEmptySpan(line: string, i: nat, e: nat)
    ensures !Span(line, i, 0, e)
  {
  }

  lemma OneSpan(line: string, i: nat, n: nat, e: nat)
    requires n > 0 && Ticks(line, i, n)
    ensures FindTicks(line, i + n, n).Some? && FindTicks(line, i + n, n).value + n == e <==> Span(line, i, n, e)
    ensures FindTicks(line, i + n, n).None? <==> Alone(line, i, n)
    ensures Alone(line, i, n) ==> !Span(line, i, n, e)
  {
    TicksFound(line, i + n, n, if e >= n then e - n else 0);
    PastTheEnd(line, |line|, n);
    hide Ticks;
    if Span(line, i, n, e) {
      TickInside(line, e - n, n);
    }
  }

  lemma TickInside(line: string, j: nat, n: nat)
    requires Ticks(line, j, n) && n > 0
    ensures j < |line|
  {
  }

  lemma CodeExactly(line: string, i: nat, e: nat)
    requires i < |line|
    ensures NoiseEnd(CodeSpan, line, i) == Some(e) <==> CodeNoise(line, i, e)
  {
    hide Span, Alone;
    var n := RunEnd(line, i, '`') - i;
    forall m: nat ensures Ticks(line, i, m) <==> m <= n {
      RunHolds(line, i, m);
    }
    SpanFound(line, i, n, e);
    forall k: nat | Span(line, i, k, e) ensures 0 < k <= n {
      SpanIsFilled(line, i, k, e);
    }
    hide Ticks;
  }

  lemma SpanIsFilled(line: string, i: nat, k: nat, e: nat)
    requires Span(line, i, k, e)
    ensures k > 0 && Ticks(line, i, k)
  {
  }

  lemma RunHolds(line: string, i: nat, m: nat)
    requires i <= |line|
    ensures Ticks(line, i, m) <==> m <= RunEnd(line, i, '`') - i
  {
  }

  lemma {:induction false} ParenFound(line: string, i: nat)
    ensures var p := FindParen(line, i);
            && (forall x :: i <= x < p ==> x < |line| ==> line[x] != '(' && line[x] != ')')
            && (p < |line| ==> line[p] == '(' || line[p] == ')') && (p == i || p <= |line|)
    decreases |line| - i
  {
    if i < |line| && line[i] != '(' && line[i] != ')' {
      ParenFound(line, i + 1);
    }
  }

  lemma GroupFound(line: string, i: nat, k: nat)
    requires At(line, i, '(')
    ensures Group(line, i, k) <==> FindParen(line, i + 1) == k && At(line, k, ')')
  {
    ParenFound(line, i + 1);
  }

  lemma {:induction false} DestinationExactly(line: string, i: nat, e: nat)
    ensures DestinationEnd(line, i) == Some(e) <==> Destination(line, i, e)
    decreases |line| - i
  {
    hide Group;
    if i < |line| {
      if line[i] == '(' {
        forall k: nat ensures Group(line, i, k) <==> FindParen(line, i + 1) == k && At(line, k, ')') {
          GroupFound(line, i, k);
        }
        var k := FindParen(line, i + 1);
        if At(line, k, ')') {
          DestinationExactly(line, k + 1, e);
        }
      } else if line[i] != ')' {
        DestinationExactly(line, i + 1, e);
      }
    }
  }

  lemma {:induction false} SchemeFound(line: string, i: nat, c: nat)
    requires i <= c < |line| && (forall x :: i <= x < c ==> SchemeChar(line[x])) && !SchemeChar(line[c])
    ensures SchemeEnd(line, i) == c
    decreases c - i
  {
    if i < c {
      SchemeFound(line, i + 1, c);
    }
  }

  lemma {:induction false} UrlFound(line: string, i: nat, u: nat)
    requires i <= u < |line| && (forall x :: i <= x < u ==> UrlChar(line[x])) && !UrlChar(line[u])
    ensures UrlEnd(line, i) == u
    decreases u - i
  {
    hide Space;
    if i < u {
      UrlFound(line, i + 1, u);
    }
  }

  lemma {:induction false} SchemeHolds(line: string, i: nat)
    ensures SchemeEnd(line, i) == i || SchemeEnd(line, i) <= |line|
    ensures forall x: nat :: i <= x < SchemeEnd(line, i) && x < |line| ==> SchemeChar(line[x])
    decreases |line| - i
  {
    if i < |line| && SchemeChar(line[i]) {
      SchemeHolds(line, i + 1);
      assert SchemeEnd(line, i) == SchemeEnd(line, i + 1);
    }
  }

  lemma {:induction false} UrlHolds(line: string, i: nat)
    ensures forall x: nat :: i <= x < UrlEnd(line, i) && x < |line| ==> UrlChar(line[x])
    decreases |line| - i
  {
    hide Space;
    if i < |line| && UrlChar(line[i]) {
      UrlHolds(line, i + 1);
      assert UrlEnd(line, i) == UrlEnd(line, i + 1);
    }
  }

  lemma AutolinkExactly(line: string, i: nat, e: nat)
    requires i < |line|
    ensures NoiseEnd(Autolink, line, i) == Some(e) <==> LinkedNoise(line, i, e)
  {
    hide Space;
    if NoiseEnd(Autolink, line, i) == Some(e) {
      var c := SchemeEnd(line, i + 2);
      SchemeHolds(line, i + 2);
      UrlHolds(line, c + 1);
      assert Link(line, i, c, e);
    }
    if c: nat :| Link(line, i, c, e) {
      SchemeFound(line, i + 2, c);
      UrlFound(line, c + 1, e - 1);
    }
  }

  lemma NoiseExactly(kind: Noise, line: string, i: nat, e: nat)
    requires i < |line|
    ensures NoiseEnd(kind, line, i) == Some(e) <==> NoiseFills(kind, line, i, e)
  {
    match kind
    case CodeSpan => CodeExactly(line, i, e);
    case LinkDestination => DestinationExactly(line, i + 2, e);
    case Autolink => AutolinkExactly(line, i, e);
  }

  /** From `i` on `text` is the line without its noise of one kind, found from left to right. */
  ghost predicate Clears(kind: Noise, line: string, i: nat, text: string)
    requires i <= |line|
    decreases |line| - i
  {
    if i == |line| then text == ""
    else if exists e: nat :: NoiseFills(kind, line, i, e) then
      exists e: nat :: i < e <= |line| && NoiseFills(kind, line, i, e) && Clears(kind, line, e, text)
    else text != "" && text[0] == line[i] && Clears(kind, line, i + 1, text[1..])
  }

  lemma {:induction false} NoiseIsCleared(kind: Noise, line: string, i: nat)
    requires i <= |line|
    ensures Clears(kind, line, i, Removed(kind, line, i))
    decreases |line| - i
  {
    hide NoiseEnd, NoiseFills;
    if i < |line| {
      forall e: nat ensures NoiseEnd(kind, line, i) == Some(e) <==> NoiseFills(kind, line, i, e) {
        NoiseExactly(kind, line, i, e);
      }
      if NoiseEnd(kind, line, i).Some? {
        NoiseIsCleared(kind, line, NoiseEnd(kind, line, i).value);
      } else {
        NoiseIsCleared(kind, line, i + 1);
        assert ([line[i]] + Removed(kind, line, i + 1))[1..] == Removed(kind, line, i + 1);
      }
    }
  }

  /** Code spans are taken out first, then link destinations, then autolinks. */
  lemma NoiseIsTakenOut(line: string) returns (a: string, b: string)
    ensures Clears(CodeSpan, line, 0, a) && Clears(LinkDestination, a, 0, b)
    ensures Clears(Autolink, b, 0, WithoutNoise(line))
  {
    hide Removed, Clears;
    a := Removed(CodeSpan, line, 0);
    b := Removed(LinkDestination, a, 0);
    NoiseIsCleared(CodeSpan, line, 0);
    NoiseIsCleared(LinkDestination, a, 0);
    NoiseIsCleared(Autolink, b, 0);
  }

  // ----- values -----------------------------------------------------------

  /** The text between label `k` and the next one, or the end of the line, is `v` and white space around it. */
  ghost predicate Declares(text: string, ls: seq<Label>, k: nat, v: string) {
    && k < |ls| && ls[k].end <= Next(text, ls, k) <= |text|
    && exists a, b :: Framed(text[ls[k].end..Next(text, ls, k)], a, b, v)
  }

  function Next(text: string, ls: seq<Label>, k: nat): nat
    requires k < |ls|
  {
    if k + 1 < |ls| then ls[k + 1].start else |text|
  }

  /** A line that starts with a label declares one value for each label that is left once the noise is taken out: the
      text up to the next label, without the white space around it. Any other line declares nothing inline. */
  lemma ValuesExactly(line: string)
    ensures !StartsWithLabel(line) ==> InlineValues(line) == []
    ensures StartsWithLabel(line) ==>
              var text, ls := WithoutNoise(line), Labels(WithoutNoise(line), 0);
              && Finds(text, 0, ls) && |InlineValues(line)| == |ls|
              && forall k: nat :: k < |ls| ==> Declares(text, ls, k, InlineValues(line)[k])
  {
    hide Labels, WithoutNoise, Finds, StartsWithLabel, Labelled, Framed, Trim;
    LabelledExactly(line);
    var text := WithoutNoise(line);
    LabelsAreFound(text, 0);
    var ls := Labels(text, 0);
    if StartsWithLabel(line) {
      forall k: nat | k < |ls| ensures Declares(text, ls, k, InlineValues(line)[k]) {
        TrimExactly(text[ls[k].end..Next(text, ls, k)], InlineValues(line)[k]);
      }
    }
  }
}
