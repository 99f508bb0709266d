/** Headings and values by the characters of their lines: what ends a header, what declares a status, and with which
    value. */
module HeadingForms {
  import opened Chars
  import opened MarkdownLines
  import opened HeaderScan
  import opened HiddenBlocks

  predicate White(s: string, a: nat, b: nat) {
    a <= b <= |s| && forall k :: a <= k < b ==> Space(s[k])
  }

  // ----- trimming ---------------------------------------------------------

  /** `v` stands in `s` at [a, b), with white space before and after it and none at its own ends. */
  predicate Framed(s: string, a: nat, b: nat, v: string) {
    && a <= b <= |s| && v == s[a..b] && White(s, 0, a) && White(s, b, |s|)
    && (v != "" ==> !Space(v[0]) && !Space(v[|v| - 1]))
  }

  lemma {:induction false} LeftTrimmed(s: string) returns (a: nat)
    ensures White(s, 0, a) && TrimLeft(s) == s[a..] && (a < |s| ==> !Space(s[a]))
    decreases |s|
  {
    a := 0;
    if s != "" && Space(s[0]) {
      var n := LeftTrimmed(s[1..]);
      a := n + 1;
      assert s[1..][n..] == s[a..];
      forall k | 0 <= k < a ensures Space(s[k]) {
        assert k > 0 ==> s[1..][k - 1] == s[k];
      }
    }
  }

  lemma {:induction false} RightTrimmed(s: string) returns (b: nat)
    ensures White(s, b, |s|) && TrimRight(s) == s[..b] && (b > 0 ==> !Space(s[b - 1]))
    decreases |s|
  {
    b := |s|;
    if s != "" && Space(s[|s| - 1]) {
      b := RightTrimmed(s[..|s| - 1]);
      assert s[..|s| - 1][..b] == s[..b];
      forall k | b <= k < |s| ensures Space(s[k]) {
        assert k < |s| - 1 ==> s[..|s| - 1][k] == s[k];
      }
    }
  }

  lemma Trimming(s: string) returns (a: nat, b: nat)
    ensures a <= b <= |s| && Framed(s, a, b, Trim(s))
  {
    a := LeftTrimmed(s);
    var n := RightTrimmed(s[a..]);
    b := a + n;
    assert s[a..][..n] == s[a..b];
    forall k | b <= k < |s| ensures Space(s[k]) {
      assert s[a..][k - a] == s[k];
    }
  }

  lemma FrameEnds(s: string, a: nat, b: nat, v: string)
    requires Framed(s, a, b, v)
    ensures a < b ==> !Space(s[a]) && !Space(s[b - 1])
    ensures a == b ==> White(s, 0, |s|)
  {
    if a < b {
      assert v[0] == s[a] && v[|v| - 1] == s[b - 1];
    }
  }

  lemma FramedOnce(s: string, a: nat, b: nat, v: string, c: nat, d: nat, w: string)
    requires Framed(s, a, b, v) && Framed(s, c, d, w)
    ensures v == w
  {
    hide Space;
    FrameEnds(s, a, b, v);
    FrameEnds(s, c, d, w);
  }

  /** Trimming takes away the white space at both ends and nothing else. */
  lemma TrimExactly(s: string, v: string)
    ensures Trim(s) == v <==> exists a, b :: Framed(s, a, b, v)
  {
    hide Framed;
    var c, d := Trimming(s);
    if a, b :| Framed(s, a, b, v) {
      FramedOnce(s, a, b, v, c, d, Trim(s));
    }
  }

  // ----- headings ---------------------------------------------------------

  /** Up to three spaces in [0, i), and then between `low` and six hashes in [i, e), at the start of the line. */
  predicate Hashes(line: string, i: nat, e: nat, low: nat) {
    && i <= 3 && Filled(line, 0, i, ' ') && Filled(line, i, e, '#') && low <= e - i <= 6
    && (e < |line| ==> line[e] != '#')
  }

  /** A section heading: two hashes at least, white space, and something after it. */
  ghost predicate SectionForm(line: string) {
    exists i: nat, e: nat, k: nat :: Hashes(line, i, e, 2) && e < k < |line| && White(line, e, k) && !Space(line[k])
  }

  /** Letter `c` in either case, or the long s. */
  predicate IsLetter(x: char, c: char) {
    x == c || x as int == c as int - 32 || (c == 's' && x as int == 0x17F)
  }

  predicate SaysStatus(line: string, a: nat) {
    && a + 6 <= |line| && IsLetter(line[a], 's') && IsLetter(line[a + 1], 't') && IsLetter(line[a + 2], 'a')
    && IsLetter(line[a + 3], 't') && IsLetter(line[a + 4], 'u') && IsLetter(line[a + 5], 's')
  }

  /** A Status heading: a hash at least, white space, the word in any case, and nothing but white space after it. */
  ghost predicate StatusForm(line: string) {
    exists i: nat, e: nat, a: nat :: StatusAt(line, i, e, a)
  }

  predicate StatusAt(line: string, i: nat, e: nat, a: nat) {
    Hashes(line, i, e, 1) && e < a && White(line, e, a) && SaysStatus(line, a) && White(line, a + 6, |line|)
  }

  /** An ATX heading: a hash at least, and then a space, a tab or the end of the line. */
  ghost predicate AtxForm(line: string) {
    exists i: nat, e: nat :: Hashes(line, i, e, 1) && (e == |line| || line[e] == ' ' || line[e] == '\t')
  }

  lemma HashesExactly(line: string, i: nat, e: nat, low: nat)
    requires low > 0
    ensures Hashes(line, i, e, low)
            <==> i == RunEnd(line, 0, ' ') && e == RunEnd(line, i, '#') && i <= 3 && low <= e - i <= 6
  {
    if Hashes(line, i, e, low) {
      RunIsFilled(line, i, e, '#');
      RunIsFilled(line, 0, i, ' ');
    }
  }

  lemma AtxExactly(line: string)
    ensures AtxHeading(line) <==> AtxForm(line)
  {
    var i := RunEnd(line, 0, ' ');
    var e := RunEnd(line, i, '#');
    HashesExactly(line, i, e, 1);
    if j: nat, f: nat :| Hashes(line, j, f, 1) && (f == |line| || line[f] == ' ' || line[f] == '\t') {
      HashesExactly(line, j, f, 1);
    }
  }

  lemma SectionStands(line: string, i: nat, e: nat)
    requires Hashes(line, i, e, 2) && e < |line| && Space(line[e]) && !Blank(line[e..])
    ensures SectionForm(line)
  {
    hide Space, Hashes;
    var rest := line[e..];
    var n := FirstText(rest);
    assert rest[n] == line[e + n] && rest[0] == line[e];
    forall k | e <= k < e + n ensures Space(line[k]) {
      assert rest[k - e] == line[k];
    }
    assert White(line, e, e + n);
  }

  lemma {:induction false} FirstText(s: string) returns (n: nat)
    requires !Blank(s)
    ensures n < |s| && White(s, 0, n) && !Space(s[n])
  {
    n := 0;
    if Space(s[0]) {
      assert !Blank(s[1..]) by {
        var k :| 0 <= k < |s| && !Space(s[k]);
        assert s[1..][k - 1] == s[k];
      }
      n := FirstText(s[1..]);
      forall k | 0 <= k <= n ensures Space(s[k]) {
        assert k > 0 ==> s[1..][k - 1] == s[k];
      }
      n := n + 1;
    }
  }

  lemma SectionExactly(line: string)
    ensures SectionHeading(line) <==> SectionForm(line)
  {
    var i := RunEnd(line, 0, ' ');
    var e := RunEnd(line, i, '#');
    HashesExactly(line, i, e, 2);
    if SectionHeading(line) {
      SectionStands(line, i, e);
    }
    if j: nat, f: nat, k: nat :| Hashes(line, j, f, 2) && f < k < |line| && White(line, f, k) && !Space(line[k]) {
      HashesExactly(line, j, f, 2);
      assert line[e..][k - e] == line[k];
    }
  }

  lemma LowerIs(s: string)
    ensures Lower(s) == "status" <==> |s| == 6 && SaysStatus(s, 0)
  {
    if |s| == 6 && SaysStatus(s, 0) {
      assert Lower(s) == "status";
    }
    if Lower(s) == "status" {
      assert Lower(s)[0] == 's' && Lower(s)[1] == 't' && Lower(s)[2] == 'a';
      assert Lower(s)[3] == 't' && Lower(s)[4] == 'u' && Lower(s)[5] == 's';
    }
  }

  lemma StatusExactly(line: string)
    ensures StatusHeading(line) <==> StatusForm(line)
  {
    var i := RunEnd(line, 0, ' ');
    var e := RunEnd(line, i, '#');
    HashesExactly(line, i, e, 1);
    if StatusHeading(line) {
      var a, b := Trimming(line[e..]);
      LowerIs(Trim(line[e..]));
      StatusStands(line, i, e, a, b);
    }
    if j: nat, f: nat, a: nat :| StatusAt(line, j, f, a) {
      HashesExactly(line, j, f, 1);
      StatusIsTrimmed(line, e, a);
    }
  }

  lemma StatusStands(line: string, i: nat, e: nat, a: nat, b: nat)
    requires Hashes(line, i, e, 1) && e < |line| && Space(line[e]) && Framed(line[e..], a, b, Trim(line[e..]))
    requires |Trim(line[e..])| == 6 && SaysStatus(Trim(line[e..]), 0)
    ensures StatusAt(line, i, e, e + a)
  {
    hide Trim, Space, Hashes;
    var rest := line[e..];
    assert forall k :: 0 <= k < |rest| ==> rest[k] == line[e + k];
    var v := Trim(rest);
    assert forall k :: 0 <= k < 6 ==> v[k] == line[e + a + k];
    assert a > 0 by {
      assert v[0] == rest[a];
    }
    forall k | e <= k < e + a ensures Space(line[k]) {
      assert rest[k - e] == line[k];
    }
    forall k | e + a + 6 <= k < |line| ensures Space(line[k]) {
      assert rest[k - e] == line[k];
    }
  }

  lemma StatusIsTrimmed(line: string, e: nat, a: nat)
    requires e < a && White(line, e, a) && SaysStatus(line, a) && White(line, a + 6, |line|)
    ensures Lower(Trim(line[e..])) == "status"
  {
    var rest := line[e..];
    var v := line[a..a + 6];
    LetterIsNoSpace(line[a], 's');
    LetterIsNoSpace(line[a + 5], 's');
    FrameOfRest(line, e, a, v);
    TrimExactly(rest, v);
    LowerIs(v);
  }

  lemma FrameOfRest(line: string, e: nat, a: nat, v: string)
    requires e <= a && a + 6 <= |line| && White(line, e, a) && White(line, a + 6, |line|) && v == line[a..a + 6]
    requires !Space(v[0]) && !Space(v[5])
    ensures Framed(line[e..], a - e, a - e + 6, v)
  {
    hide Space;
    var rest := line[e..];
    assert rest[a - e..a - e + 6] == v;
  }

  lemma LetterIsNoSpace(x: char, c: char)
    requires IsLetter(x, c) && 'a' <= c <= 'z'
    ensures !Space(x)
  {
  }

  /** What a code span cannot cross: a blank line, an ATX heading, or a line that opens a fence. */
  lemma BoundaryExactly(line: string)
    ensures Boundary(line) <==> White(line, 0, |line|) || AtxForm(line) || exists mark, n :: OpensWith(line, mark, n)
  {
    hide AtxForm, AtxHeading, OpensWith, FenceOpener;
    AtxExactly(line);
    if FenceOpener(line).Some? {
      OpenerExactly(line, FenceOpener(line).value.mark, FenceOpener(line).value.length);
    }
    if mark, n :| OpensWith(line, mark, n) {
      OpenerExactly(line, mark, n);
    }
  }

  // ----- the value below a Status heading ---------------------------------

  /** The first visible text at or after line `j` stands on line `k`, and nothing hidden before it. */
  predicate ShowsFirst(views: seq<View>, j: nat, k: nat) {
    && j <= k < |views| && (forall i :: j <= i <= k ==> !views[i].hidden)
    && (forall i :: j <= i < k ==> views[i].visible.Some? ==> Blank(views[i].visible.value))
    && views[k].visible.Some? && !Blank(views[k].visible.value)
  }

  /** A Status heading declares the first text below it, without the white space around it. */
  lemma {:induction false} FirstValueExactly(views: seq<View>, j: nat, k: nat)
    requires ShowsFirst(views, j, k)
    ensures FirstValue(views, j) == [Declaration(k + 1, Trim(views[k].visible.value), true)]
    decreases |views| - j
  {
    hide Blank, Trim;
    if j < k {
      FirstValueExactly(views, j + 1, k);
    }
  }

  lemma ShowsLater(views: seq<View>, j: nat)
    requires j < |views| && !views[j].hidden && !ShowsFirst(views, j, j)
    ensures forall k: nat {:trigger ShowsFirst(views, j + 1, k)} ::
        ShowsFirst(views, j + 1, k) ==> ShowsFirst(views, j, k)
  {
    hide Blank;
  }

  /** Without such a text, or with something hidden before it, it declares nothing. */
  lemma {:induction false} NoFirstValue(views: seq<View>, j: nat)
    requires forall k: nat :: !ShowsFirst(views, j, k)
    ensures FirstValue(views, j) == []
    decreases |views| - j
  {
    hide Blank, Trim;
    if j < |views| && !views[j].hidden {
      assert !ShowsFirst(views, j, j);
      ShowsLater(views, j);
      NoFirstValue(views, j + 1);
    }
  }
}
