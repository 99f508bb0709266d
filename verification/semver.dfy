/** Version strings of the form major.minor.patch and their order. */
module SemanticVersions {
  import opened Wrappers

  datatype Semver = Semver(major: nat, minor: nat, patch: nat)

  /** Negative, zero or positive, the way a sort comparator answers. */
  function Cmp(a: Semver, b: Semver): int {
    if a.major != b.major then a.major - b.major
    else if a.minor != b.minor then a.minor - b.minor
    else a.patch - b.patch
  }

  predicate Before(a: Semver, b: Semver) {
    Cmp(a, b) < 0
  }

  /** The comparator is a strict total order: exactly one of before, equal and after, transitively. */
  lemma CmpIsTotalOrder(a: Semver, b: Semver, c: Semver)
    ensures Cmp(a, b) == 0 <==> a == b
    ensures Before(a, b) <==> Cmp(b, a) > 0
    ensures Before(a, b) && Before(b, c) ==> Before(a, c)
  {
  }

  /** White space and line ends as ECMAScript defines them for `trim`. */
  predicate Space(c: char) {
    var n := c as int;
    || 9 <= n <= 13 || n == 32 || n == 160 || n == 0x1680 || 0x2000 <= n <= 0x200A || n == 0x2028 || n == 0x2029
    || n == 0x202F || n == 0x205F || n == 0x3000 || n == 0xFEFF
  }

  predicate Digit(c: char) {
    '0' <= c <= '9'
  }

  predicate Number(s: string) {
    s != [] && forall i :: 0 <= i < |s| ==> Digit(s[i])
  }

  function ReadNumber(s: string): nat
    requires forall i :: 0 <= i < |s| ==> Digit(s[i])
  {
    if s == [] then 0
    else
      assert Digit(s[|s| - 1]);
      10 * ReadNumber(s[..|s| - 1]) + (s[|s| - 1] as int - '0' as int)
  }

  function Trimmed(s: string): string {
    if s == [] then []
    else if Space(s[0]) then Trimmed(s[1..])
    else if Space(s[|s| - 1]) then Trimmed(s[..|s| - 1])
    else s
  }

  /** The index of the first dot, or the length. */
  function DotAt(s: string): (i: nat)
    ensures i <= |s| && (i < |s| ==> s[i] == '.')
  {
    if s == [] || s[0] == '.' then 0 else 1 + DotAt(s[1..])
  }

  /** Three runs of digits with a dot between them, white space around; anything else is refused. */
  function ParseSemver(text: string): Option<Semver> {
    var s := Trimmed(text);
    var i := DotAt(s);
    if i == |s| then None
    else
      var t := s[i + 1..];
      var j := DotAt(t);
      if j == |t| || !Number(s[..i]) || !Number(t[..j]) || !Number(t[j + 1..]) then None
      else Some(Semver(ReadNumber(s[..i]), ReadNumber(t[..j]), ReadNumber(t[j + 1..])))
  }

  function NumberText(n: nat): string {
    (if n < 10 then [] else NumberText(n / 10)) + [('0' as int + n % 10) as char]
  }

  function FormatSemver(v: Semver): string {
    NumberText(v.major) + "." + (NumberText(v.minor) + "." + NumberText(v.patch))
  }

  lemma {:induction false} NumberRoundTrip(n: nat)
    ensures Number(NumberText(n)) && ReadNumber(NumberText(n)) == n
  {
    var s := NumberText(n);
    var high := s[..|s| - 1];
    if n < 10 {
      assert high == [];
    } else {
      NumberRoundTrip(n / 10);
      assert high == NumberText(n / 10);
    }
  }

  lemma {:induction false} DotAfterNumber(number: string, rest: string)
    requires forall i :: 0 <= i < |number| ==> Digit(number[i])
    ensures DotAt(number + "." + rest) == |number|
    ensures (number + "." + rest)[..|number|] == number && (number + "." + rest)[|number| + 1..] == rest
  {
    var s := number + "." + rest;
    if number != [] {
      DotAfterNumber(number[1..], rest);
      assert s[1..] == number[1..] + "." + rest;
    }
  }

  lemma JoinedIsTrimmed(a: string, m: string, b: string)
    requires Number(a) && Number(b)
    ensures Trimmed(a + "." + (m + "." + b)) == a + "." + (m + "." + b)
  {
  }

  /** Three numbers joined by dots are read as those numbers, leading zeros and all. */
  lemma ParseOfParts(a: string, b: string, c: string)
    requires Number(a) && Number(b) && Number(c)
    ensures ParseSemver(a + "." + (b + "." + c)) == Some(Semver(ReadNumber(a), ReadNumber(b), ReadNumber(c)))
  {
    hide Trimmed, ReadNumber;
    JoinedIsTrimmed(a, b, c);
    DotAfterNumber(a, b + "." + c);
    DotAfterNumber(b, c);
  }

  /** The version a run reports is read back as the same version. */
  lemma ParseOfFormat(v: Semver)
    ensures ParseSemver(FormatSemver(v)) == Some(v)
  {
    hide ParseSemver, NumberText, Number;
    NumberRoundTrip(v.major);
    NumberRoundTrip(v.minor);
    NumberRoundTrip(v.patch);
    ParseOfParts(NumberText(v.major), NumberText(v.minor), NumberText(v.patch));
  }

  // ----- what is read, and what is refused --------------------------------

  predicate Blank(s: string) {
    forall k :: 0 <= k < |s| ==> Space(s[k])
  }

  /** White space, three numbers with dots between them, white space. */
  predicate Spelled(text: string, left: string, a: string, b: string, c: string, right: string) {
    && Blank(left) && Blank(right) && Number(a) && Number(b) && Number(c)
    && text == left + (a + "." + (b + "." + c)) + right
  }

  lemma {:induction false} TrimmedPart(text: string) returns (left: string, right: string)
    ensures Blank(left) && Blank(right) && text == left + Trimmed(text) + right
    decreases |text|
  {
    hide Space, Blank;
    left, right := [], [];
    NothingIsBlank();
    if text != [] {
      var first, last := text[0], text[|text| - 1];
      if Space(first) {
        left, right := TrimmedPart(text[1..]);
        OneMoreLeft(text, left, Trimmed(text[1..]), right);
        left := [first] + left;
      } else if Space(last) {
        left, right := TrimmedPart(text[..|text| - 1]);
        OneMoreRight(text, left, Trimmed(text[..|text| - 1]), right);
        right := right + [last];
      }
    }
  }

  lemma NothingIsBlank()
    ensures Blank([])
  {
  }

  lemma OneMoreLeft(text: string, left: string, s: string, right: string)
    requires text != [] && Space(text[0]) && Blank(left) && text[1..] == left + s + right
    ensures Blank([text[0]] + left) && text == [text[0]] + left + s + right
  {
    hide Space;
    assert text == [text[0]] + text[1..];
  }

  lemma OneMoreRight(text: string, left: string, s: string, right: string)
    requires text != [] && Space(text[|text| - 1]) && Blank(right) && text[..|text| - 1] == left + s + right
    ensures Blank(right + [text[|text| - 1]]) && text == left + s + (right + [text[|text| - 1]])
  {
    hide Space;
    assert text == text[..|text| - 1] + [text[|text| - 1]];
  }

  lemma {:induction false} TrimmedOfPart(left: string, s: string, right: string)
    requires Blank(left) && Blank(right) && s != [] && !Space(s[0]) && !Space(s[|s| - 1])
    ensures Trimmed(left + s + right) == s
    decreases |left| + |right|
  {
    hide Space;
    var text := left + s + right;
    if left != [] {
      assert text[1..] == left[1..] + s + right && text[0] == left[0];
      TrimmedOfPart(left[1..], s, right);
    } else if right != [] {
      assert text[0] == s[0] && text[|text| - 1] == right[|right| - 1];
      assert text[..|text| - 1] == left + s + right[..|right| - 1];
      TrimmedOfPart(left, s, right[..|right| - 1]);
    } else {
      assert text == s;
    }
  }

  lemma DigitIsNoSpace(c: char)
    ensures Digit(c) ==> !Space(c)
  {
  }

  lemma SplitAtDot(s: string, i: nat)
    requires i < |s| && s[i] == '.'
    ensures s == s[..i] + "." + s[i + 1..]
  {
  }

  /** A version is read exactly from three numbers with dots between them, white space around, and nothing else. */
  lemma ParseExactly(text: string)
    ensures ParseSemver(text).Some? <==> exists left, a, b, c, right :: Spelled(text, left, a, b, c, right)
  {
    hide Trimmed, ReadNumber, Space;
    if ParseSemver(text).Some? {
      var left, right := TrimmedPart(text);
      var s := Trimmed(text);
      var i := DotAt(s);
      var t := s[i + 1..];
      var j := DotAt(t);
      SplitAtDot(s, i);
      SplitAtDot(t, j);
      assert s == s[..i] + "." + (t[..j] + "." + t[j + 1..]);
      assert Spelled(text, left, s[..i], t[..j], t[j + 1..], right);
    }
    if left, a, b, c, right :| Spelled(text, left, a, b, c, right) {
      SpelledIsRead(text, left, a, b, c, right);
    }
  }

  lemma SpelledIsRead(text: string, left: string, a: string, b: string, c: string, right: string)
    requires Spelled(text, left, a, b, c, right)
    ensures ParseSemver(text) == Some(Semver(ReadNumber(a), ReadNumber(b), ReadNumber(c)))
  {
    hide Trimmed, ReadNumber, Space;
    var s := a + "." + (b + "." + c);
    DigitIsNoSpace(s[0]);
    DigitIsNoSpace(s[|s| - 1]);
    assert s[0] == a[0] && s[|s| - 1] == c[|c| - 1];
    TrimmedOfPart(left, s, right);
    ParseOfParts(a, b, c);
    JoinedIsTrimmed(a, b, c);
  }
}
