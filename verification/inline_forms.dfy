/**
 The inline form of a status declaration: a label at the start of a line, and the values of all labels on it once code
 spans, link destinations and autolinks are taken out.
 */
module InlineForms {
  import opened Wrappers
  import opened Chars
  import opened MarkdownLines

  /** After at most two stars. */
  function StarsEnd(line: string, i: nat): (e: nat)
    requires i <= |line|
    ensures i <= e <= |line| && forall k :: i <= k < e ==> line[k] == '*'
  {
    if At(line, i, '*') then if At(line, i + 1, '*') then i + 2 else i + 1 else i
  }

  predicate WordAt(line: string, i: nat) {
    i + 6 <= |line| && Lower(line[i..i + 6]) == "status"
  }

  /** After the colon that closes the label whose word starts at `i`. */
  function LabelEnd(line: string, i: nat): Option<nat> {
    if !WordAt(line, i) then None
    else
      var colon := SpacesEnd(line, StarsEnd(line, SpacesEnd(line, i + 6)));
      if At(line, colon, ':') then Some(colon + 1) else None
  }

  /** Where the word of a label at the start of the line would be: after white space, a dash and two stars at most. */
  function FirstWord(line: string): (i: nat)
    ensures i <= |line|
  {
    var i := SpacesEnd(line, 0);
    var j := if At(line, i, '-') then SpacesEnd(line, i + 1) else i;
    SpacesEnd(line, StarsEnd(line, j))
  }

  /** The line starts with a label. */
  predicate Labelled(line: string) {
    LabelEnd(line, FirstWord(line)).Some?
  }

  // ----- what is taken out ------------------------------------------------

  datatype Noise = CodeSpan | LinkDestination | Autolink

  /** `n` backticks stand at `j`. */
  predicate TicksAt(line: string, j: nat, n: nat) {
    j + n <= |line| && forall k :: j <= k < j + n ==> line[k] == '`'
  }

  function FindTicks(line: string, j: nat, n: nat): (r: Option<nat>)
    ensures r.Some? ==> j <= r.value && TicksAt(line, r.value, n)
    decreases |line| - j
  {
    if TicksAt(line, j, n) then Some(j) else if j >= |line| then None else FindTicks(line, j + 1, n)
  }

  /** The end of a span that opens with `n` backticks at `i`, or with fewer when so many are not found again. */
  function SpanEnd(line: string, i: nat, n: nat): (e: Option<nat>)
    ensures e.Some? ==> i < e.value <= |line|
  {
    if n == 0 then None
    else
      var close := FindTicks(line, i + n, n);
      if close.Some? then Some(close.value + n) else SpanEnd(line, i, n - 1)
  }

  /** The first parenthesis at or after `i`. */
  function FindParen(line: string, i: nat): (p: nat)
    ensures i <= p
    decreases |line| - i
  {
    if i >= |line| || line[i] == '(' || line[i] == ')' then i else FindParen(line, i + 1)
  }

  /** The closer of a link destination whose inside is read from `i`, one level of parentheses allowed. */
  function DestinationEnd(line: string, i: nat): (e: Option<nat>)
    ensures e.Some? ==> i < e.value <= |line|
    decreases |line| - i
  {
    var p := FindParen(line, i);
    if At(line, p, ')') then Some(p + 1)
    else if At(line, p, '(') && At(line, FindParen(line, p + 1), ')')
    then DestinationEnd(line, FindParen(line, p + 1) + 1)
    else None
  }

  predicate Letter(c: char) {
    'a' <= c <= 'z' || 'A' <= c <= 'Z'
  }

  function SchemeEnd(line: string, i: nat): (e: nat)
    ensures i <= e
    decreases |line| - i
  {
    if i < |line| && (Letter(line[i]) || '0' <= line[i] <= '9' || line[i] == '+' || line[i] == '.' || line[i] == '-')
    then SchemeEnd(line, i + 1) else i
  }

  function UrlEnd(line: string, i: nat): (e: nat)
    ensures i <= e
    decreases |line| - i
  {
    if i < |line| && line[i] != '<' && line[i] != '>' && !Space(line[i]) then UrlEnd(line, i + 1) else i
  }

  /** The end of a piece of noise that starts at `i`. */
  function NoiseEnd(kind: Noise, line: string, i: nat): (e: Option<nat>)
    ensures e.Some? ==> i < e.value <= |line| && (line[i] == '`' || line[i] == ']' || line[i] == '<')
  {
    if i >= |line| then None
    else
      match kind
      case CodeSpan => if line[i] == '`' then SpanEnd(line, i, RunEnd(line, i, '`') - i) else None
      case LinkDestination => if line[i] == ']' && At(line, i + 1, '(') then DestinationEnd(line, i + 2) else None
      case Autolink =>
        if line[i] == '<' && i + 1 < |line| && Letter(line[i + 1]) then
          var colon := SchemeEnd(line, i + 2);
          if 1 <= colon - (i + 2) <= 31 && At(line, colon, ':') && At(line, UrlEnd(line, colon + 1), '>')
          then Some(UrlEnd(line, colon + 1) + 1) else None
        else None
  }

  /** The line from `i` on without the noise of one kind. */
  function Removed(kind: Noise, line: string, i: nat): string
    requires i <= |line|
    decreases |line| - i
  {
    if i == |line| then []
    else if NoiseEnd(kind, line, i).Some? then Removed(kind, line, NoiseEnd(kind, line, i).value)
    else [line[i]] + Removed(kind, line, i + 1)
  }

  function WithoutNoise(line: string): string {
    var a := Removed(CodeSpan, line, 0);
    var b := Removed(LinkDestination, a, 0);
    Removed(Autolink, b, 0)
  }

  // ----- labels anywhere --------------------------------------------------

  predicate WordChar(c: char) {
    Letter(c) || '0' <= c <= '9' || c == '_'
  }

  /** The end of a label that starts at `s`: with two stars, with one, or with the word at its left edge. */
  function LabelAt(line: string, s: nat): (e: Option<nat>)
    ensures e.Some? ==> s < e.value <= |line|
  {
    if At(line, s, '*') && At(line, s + 1, '*') && LabelEnd(line, s + 2).Some? then LabelEnd(line, s + 2)
    else if At(line, s, '*') && LabelEnd(line, s + 1).Some? then LabelEnd(line, s + 1)
    else if (s == 0 || (s <= |line| && !WordChar(line[s - 1]))) && LabelEnd(line, s).Some? then LabelEnd(line, s)
    else None
  }

  datatype Label = Label(start: nat, end: nat)

  function Labels(line: string, i: nat): (ls: seq<Label>)
    ensures forall k :: 0 <= k < |ls| ==> i <= ls[k].start < ls[k].end <= |line|
    ensures forall k, l :: 0 <= k < l < |ls| ==> ls[k].end <= ls[l].start
    decreases |line| - i
  {
    if i >= |line| then []
    else if LabelAt(line, i).Some? then [Label(i, LabelAt(line, i).value)] + Labels(line, LabelAt(line, i).value)
    else Labels(line, i + 1)
  }

  /** The text from each label to the next one, trimmed. */
  function ValuesOf(line: string, ls: seq<Label>): seq<string>
    requires forall k :: 0 <= k < |ls| ==> ls[k].start < ls[k].end <= |line|
    requires forall k, l :: 0 <= k < l < |ls| ==> ls[k].end <= ls[l].start
  {
    seq(|ls|, k requires 0 <= k < |ls| => Trim(line[ls[k].end..if k + 1 < |ls| then ls[k + 1].start else |line|]))
  }

  /** The values that the labels of a visible line declare: none unless the line starts with a label. */
  function InlineValues(line: string): seq<string> {
    if Labelled(line) then ValuesOf(WithoutNoise(line), Labels(WithoutNoise(line), 0)) else []
  }

  // ----- a labelled line declares something -------------------------------

  /** Up to `n` the two lines are the same, and no noise starts there. */
  predicate SameStart(a: string, b: string, n: nat) {
    && n <= |a| && n <= |b| && a[..n] == b[..n]
    && forall k :: 0 <= k < n ==> a[k] != '`' && a[k] != ']' && a[k] != '<'
  }

  lemma SameAt(a: string, b: string, n: nat, k: nat)
    requires SameStart(a, b, n) && k < n
    ensures a[k] == b[k]
  {
    assert a[k] == a[..n][k] == b[..n][k];
  }

  lemma {:induction false} RemovedKeepsStart(kind: Noise, line: string, i: nat, n: nat)
    requires i <= n <= |line| && forall k :: 0 <= k < n ==> line[k] != '`' && line[k] != ']' && line[k] != '<'
    ensures |Removed(kind, line, i)| >= n - i && Removed(kind, line, i)[..n - i] == line[i..n]
    decreases n - i
  {
    hide NoiseEnd;
    if i < n {
      RemovedKeepsStart(kind, line, i + 1, n);
      assert NoiseEnd(kind, line, i).None?;
      var rest := Removed(kind, line, i + 1);
      assert ([line[i]] + rest)[..n - i] == [line[i]] + rest[..n - i - 1];
      assert line[i..n] == [line[i]] + line[i + 1..n];
    }
  }

  lemma NoiseKeepsStart(line: string, n: nat)
    requires n <= |line| && forall k :: 0 <= k < n ==> line[k] != '`' && line[k] != ']' && line[k] != '<'
    ensures SameStart(line, WithoutNoise(line), n)
  {
    hide Removed;
    var a := Removed(CodeSpan, line, 0);
    RemovedKeepsStart(CodeSpan, line, 0, n);
    assert forall k :: 0 <= k < n ==> a[k] == a[..n][k] == line[k];
    var b := Removed(LinkDestination, a, 0);
    RemovedKeepsStart(LinkDestination, a, 0, n);
    assert forall k :: 0 <= k < n ==> b[k] == b[..n][k] == a[k];
    RemovedKeepsStart(Autolink, b, 0, n);
  }

  lemma {:induction false} SameSpaces(a: string, b: string, n: nat, i: nat)
    requires SameStart(a, b, n) && i < n && SpacesEnd(a, i) < n
    ensures SpacesEnd(b, i) == SpacesEnd(a, i)
    decreases n - i
  {
    SameAt(a, b, n, i);
    if Space(a[i]) {
      SameSpaces(a, b, n, i + 1);
    }
  }

  /** The label at the start reads the same in the other line. */
  lemma SameLabel(a: string, b: string, w: nat)
    requires LabelEnd(a, w).Some? && SameStart(a, b, LabelEnd(a, w).value)
    ensures LabelEnd(b, w) == LabelEnd(a, w)
  {
    var n := LabelEnd(a, w).value;
    assert forall k :: 0 <= k < n ==> a[k] == b[k] by {
      forall k | 0 <= k < n ensures a[k] == b[k] { SameAt(a, b, n, k); }
    }
    assert a[w..w + 6] == b[w..w + 6];
    var i := SpacesEnd(a, w + 6);
    SameSpaces(a, b, n, w + 6);
    var j := StarsEnd(a, i);
    assert StarsEnd(b, i) == j;
    SameSpaces(a, b, n, j);
  }

  /** Everything up to the end of the first label is white space, a dash, stars, the word and a colon. */
  lemma LabelHoldsNoNoise(line: string, k: nat)
    requires Labelled(line) && k < LabelEnd(line, FirstWord(line)).value
    ensures line[k] != '`' && line[k] != ']' && line[k] != '<'
  {
    var w := FirstWord(line);
    if w <= k < w + 6 {
      assert Lower(line[w..w + 6])[k - w] == "status"[k - w];
      assert line[w..w + 6][k - w] == line[k];
    }
  }

  lemma NotInAWord(line: string)
    requires Labelled(line)
    ensures var w := FirstWord(line); w == 0 || !WordChar(line[w - 1])
  {
  }

  lemma {:induction false} LabelFound(line: string, i: nat, s: nat)
    requires i <= s && LabelAt(line, s).Some?
    ensures Labels(line, i) != []
    decreases |line| - i
  {
    hide LabelAt;
    if LabelAt(line, i).None? {
      LabelFound(line, i + 1, s);
    }
  }

  /** A line that starts with a label declares at least one status: whatever is taken out of it, that label stays. */
  lemma LabelledLineDeclares(line: string)
    ensures InlineValues(line) != [] <==> Labelled(line)
  {
    hide WithoutNoise, Labels;
    if Labelled(line) {
      var w := FirstWord(line);
      var n := LabelEnd(line, w).value;
      forall k | 0 <= k < n ensures line[k] != '`' && line[k] != ']' && line[k] != '<' {
        LabelHoldsNoNoise(line, k);
      }
      NoiseKeepsStart(line, n);
      var bare := WithoutNoise(line);
      SameLabel(line, bare, w);
      NotInAWord(line);
      if w > 0 {
        SameAt(line, bare, n, w - 1);
      }
      LabelFound(bare, 0, w);
    }
  }
}
