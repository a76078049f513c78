/** Character classes and string operations the flasher relies on: Python's
    `str.strip()`, `str.lower()`, the substring test `needle in s`,
    `"\n".join(lines)`, and the character classes its regular expressions use.
    Case folding covers the ASCII letters only. */
module Text {

  /** Python's whitespace (`str.isspace()`, and `\s` in a `str` pattern). */
  predicate IsSpace(c: char) {
    var n := c as int;
    (9 <= n <= 13) || (28 <= n <= 32) || n == 0x85 || n == 0xA0 || n == 0x1680
    || (0x2000 <= n <= 0x200A) || n == 0x2028 || n == 0x2029 || n == 0x202F
    || n == 0x205F || n == 0x3000
  }

  /** `[A-Fa-f0-9]` */
  predicate IsHex(c: char) {
    ('0' <= c <= '9') || ('a' <= c <= 'f') || ('A' <= c <= 'F')
  }

  /** `[A-Za-z0-9._-]` */
  predicate IsVersionChar(c: char) {
    ('0' <= c <= '9') || ('a' <= c <= 'z') || ('A' <= c <= 'Z') || c == '.' || c == '_' || c == '-'
  }

  /** `\w`: letters, digits and the underscore. */
  predicate IsWordChar(c: char) {
    ('0' <= c <= '9') || ('a' <= c <= 'z') || ('A' <= c <= 'Z') || c == '_'
  }

  function Lower(c: char): char {
    if 'A' <= c <= 'Z' then (c as int + 32) as char else c
  }

  /** `s.lower()` */
  function LowerAll(s: string): (r: string)
    ensures |r| == |s|
    ensures forall k :: 0 <= k < |s| ==> r[k] == Lower(s[k])
  {
    if s == [] then [] else [Lower(s[0])] + LowerAll(s[1..])
  }

  /** `needle` stands in `s` at index `i`. */
  predicate OccursAt(s: string, needle: string, i: nat) {
    i + |needle| <= |s| && s[i..i + |needle|] == needle
  }

  /** Python's `needle in s`. */
  predicate Contains(s: string, needle: string) {
    exists i :: 0 <= i <= |s| && OccursAt(s, needle, i)
  }

  /** `needle` stands in `s` at index `i`, letters compared without regard to case. */
  predicate CiOccursAt(s: string, needle: string, i: nat) {
    i + |needle| <= |s| && forall k :: 0 <= k < |needle| ==> Lower(s[i + k]) == Lower(needle[k])
  }

  /** The length of the longest run of characters satisfying `p` that starts at `i`. */
  function Span(s: string, i: nat, p: char -> bool): (n: nat)
    requires i <= |s|
    ensures i + n <= |s|
    ensures forall k :: i <= k < i + n ==> p(s[k])
    ensures i + n == |s| || !p(s[i + n])
    decreases |s| - i
  {
    if i == |s| || !p(s[i]) then 0 else 1 + Span(s, i + 1, p)
  }

  /** A run of `w` characters of class `p` from index `i` lies inside the span. */
  lemma {:induction false} SpanCovers(s: string, i: nat, p: char -> bool, w: nat)
    requires i + w <= |s| && forall k :: i <= k < i + w ==> p(s[k])
    ensures Span(s, i, p) >= w
    decreases w
  {
    if w > 0 {
      SpanCovers(s, i + 1, p, w - 1);
    }
  }

  /** `r` is what is left of `s` at index `a` once whitespace is cut from both ends. */
  predicate StrippedAt(s: string, r: string, a: nat) {
    a + |r| <= |s| && s[a..a + |r|] == r
    && (forall k :: 0 <= k < a ==> IsSpace(s[k]))
    && (forall k :: a + |r| <= k < |s| ==> IsSpace(s[k]))
  }

  /** `s.lstrip()` */
  function LStrip(s: string): string {
    if s != [] && IsSpace(s[0]) then LStrip(s[1..]) else s
  }

  /** `s.rstrip()` */
  function RStrip(s: string): string {
    if s != [] && IsSpace(s[|s| - 1]) then RStrip(s[..|s| - 1]) else s
  }

  /** `s.strip()` */
  function Strip(s: string): string {
    RStrip(LStrip(s))
  }

  /** `lstrip()` cuts a whitespace prefix and leaves a text that is empty or
      starts with a non-space. */
  lemma {:induction false} LStripCuts(s: string)
    ensures |LStrip(s)| <= |s|
    ensures s[|s| - |LStrip(s)|..] == LStrip(s)
    ensures forall k :: 0 <= k < |s| - |LStrip(s)| ==> IsSpace(s[k])
    ensures LStrip(s) != "" ==> !IsSpace(LStrip(s)[0])
  {
    if s != [] && IsSpace(s[0]) {
      LStripCuts(s[1..]);
      forall k | 0 <= k < |s| - |LStrip(s)| ensures IsSpace(s[k]) {
        if k > 0 {
          assert s[k] == s[1..][k - 1];
        }
      }
    }
  }

  /** `rstrip()` cuts a whitespace suffix and leaves a text that is empty or
      ends with a non-space. */
  lemma {:induction false} RStripCuts(s: string)
    ensures |RStrip(s)| <= |s|
    ensures s[..|RStrip(s)|] == RStrip(s)
    ensures forall k :: |RStrip(s)| <= k < |s| ==> IsSpace(s[k])
    ensures RStrip(s) != "" ==> !IsSpace(RStrip(s)[|RStrip(s)| - 1])
  {
    if s != [] && IsSpace(s[|s| - 1]) {
      var t := s[..|s| - 1];
      RStripCuts(t);
      assert s[..|RStrip(s)|] == t[..|RStrip(t)|];
      forall k | |RStrip(s)| <= k < |s| ensures IsSpace(s[k]) {
        if k < |s| - 1 {
          assert s[k] == t[k];
        }
      }
    }
  }

  /** What `strip()` leaves: nothing when the text is all whitespace, and
      otherwise the middle part of the text, framed by whitespace only and
      neither starting nor ending with whitespace. */
  lemma StripTrims(s: string)
    ensures |LStrip(s)| <= |s|
    ensures Strip(s) == "" <==> forall k :: 0 <= k < |s| ==> IsSpace(s[k])
    ensures Strip(s) != "" ==> !IsSpace(Strip(s)[0]) && !IsSpace(Strip(s)[|Strip(s)| - 1])
    ensures StrippedAt(s, Strip(s), |s| - |LStrip(s)|)
  {
    var l := LStrip(s);
    var a := |s| - |l|;
    LStripCuts(s);
    RStripCuts(l);
    var r := Strip(s);
    assert s[a..a + |r|] == l[..|r|];
    forall k | a + |r| <= k < |s| ensures IsSpace(s[k]) {
      assert s[k] == l[k - a];
    }
    if r != "" {
      assert r[0] == l[0];
    }
  }

  /** `"\n".join(lines)` */
  function JoinLines(lines: seq<string>): string {
    if |lines| == 0 then ""
    else if |lines| == 1 then lines[0]
    else JoinLines(lines[..|lines| - 1]) + "\n" + lines[|lines| - 1]
  }

  /** An occurrence in `a` is an occurrence in `a + b` at the same index. */
  lemma OccursInLeft(a: string, b: string, needle: string, i: nat)
    requires OccursAt(a, needle, i)
    ensures OccursAt(a + b, needle, i)
  {
    assert (a + b)[i..i + |needle|] == a[i..i + |needle|];
  }

  /** An occurrence in `b` is an occurrence in `a + b`, shifted by `|a|`. */
  lemma OccursInRight(a: string, b: string, needle: string, i: nat)
    requires OccursAt(b, needle, i)
    ensures OccursAt(a + b, needle, |a| + i)
  {
    assert (a + b)[|a| + i..|a| + i + |needle|] == b[i..i + |needle|];
  }

  /** An occurrence in `a + b` lies in `a`, in `b`, or straddles the seam. */
  lemma OccursInConcat(a: string, b: string, needle: string, i: nat)
    requires OccursAt(a + b, needle, i)
    ensures i + |needle| <= |a| ==> OccursAt(a, needle, i)
    ensures i >= |a| ==> OccursAt(b, needle, i - |a|)
    ensures i < |a| < i + |needle| ==> needle[|a| - i] == (a + b)[|a|]
  {
    if i + |needle| <= |a| {
      assert (a + b)[i..i + |needle|] == a[i..i + |needle|];
    } else if i >= |a| {
      assert (a + b)[i..i + |needle|] == b[i - |a|..i - |a| + |needle|];
    } else {
      assert (a + b)[i..i + |needle|][|a| - i] == (a + b)[|a|];
    }
  }

  /** A needle without a line break occurs in the joined text exactly when it
      occurs in one of the lines: no occurrence straddles a separator. */
  lemma {:induction false} ContainsInJoin(lines: seq<string>, needle: string)
    requires needle != "" && '\n' !in needle
    ensures Contains(JoinLines(lines), needle) <==> exists k :: 0 <= k < |lines| && Contains(lines[k], needle)
  {
    if |lines| == 0 {
      assert !OccursAt("", needle, 0);
    } else if |lines| > 1 {
      var init, last := lines[..|lines| - 1], lines[|lines| - 1];
      var front := JoinLines(init);
      ContainsInJoin(init, needle);
      if Contains(JoinLines(lines), needle) {
        JoinedOccurrenceInLine(lines, needle);
      }
      if exists k :: 0 <= k < |lines| && Contains(lines[k], needle) {
        var k :| 0 <= k < |lines| && Contains(lines[k], needle);
        var i :| 0 <= i <= |lines[k]| && OccursAt(lines[k], needle, i);
        if k < |lines| - 1 {
          assert init[k] == lines[k];
          var f :| 0 <= f <= |front| && OccursAt(front, needle, f);
          OccursInLeft(front, "\n" + last, needle, f);
          assert front + "\n" + last == front + ("\n" + last);
        } else {
          OccursInRight(front + "\n", last, needle, i);
        }
      }
    }
  }

  /** One step of ContainsInJoin: an occurrence in the joined text of at least
      two lines is one in the joined prefix or one in the last line. */
  lemma JoinedOccurrenceInLine(lines: seq<string>, needle: string)
    requires needle != "" && '\n' !in needle && |lines| > 1
    requires Contains(JoinLines(lines), needle)
    ensures Contains(JoinLines(lines[..|lines| - 1]), needle) || Contains(lines[|lines| - 1], needle)
  {
    var front, last := JoinLines(lines[..|lines| - 1]), lines[|lines| - 1];
    var joined := JoinLines(lines);
    JoinSnoc(lines);
    var i :| 0 <= i <= |joined| && OccursAt(joined, needle, i);
    OccurrenceBesideBreak(front, last, needle, i);
    if i + |needle| <= |front| {
      assert OccursAt(front, needle, i);
    } else {
      assert OccursAt(last, needle, i - |front| - 1);
    }
  }

  /** Joining at least two lines is joining all but the last, a line break,
      and the last. */
  lemma JoinSnoc(lines: seq<string>)
    requires |lines| > 1
    ensures JoinLines(lines) == JoinLines(lines[..|lines| - 1]) + ("\n" + lines[|lines| - 1])
  {
  }

  /** An occurrence of a needle without line breaks in `front + "\n" + last`
      lies wholly in `front` or wholly in `last`. */
  lemma OccurrenceBesideBreak(front: string, last: string, needle: string, i: nat)
    requires needle != "" && '\n' !in needle
    requires OccursAt(front + ("\n" + last), needle, i)
    ensures (i + |needle| <= |front| && OccursAt(front, needle, i))
      || (i > |front| && OccursAt(last, needle, i - |front| - 1))
  {
    var tail := "\n" + last;
    OccursInConcat(front, tail, needle, i);
    if i >= |front| {
      var j := i - |front|;
      assert needle[0] == tail[j] && needle[0] in needle;
      OccursInConcat("\n", last, needle, j);
    }
  }

  /** An occurrence of an all-lower-case needle survives lower-casing the text. */
  lemma ContainsLowered(s: string, needle: string)
    requires forall k :: 0 <= k < |needle| ==> Lower(needle[k]) == needle[k]
    requires Contains(s, needle)
    ensures Contains(LowerAll(s), needle)
  {
    var i :| 0 <= i <= |s| && OccursAt(s, needle, i);
    var low := LowerAll(s);
    forall k | 0 <= k < |needle|
      ensures low[i..i + |needle|][k] == needle[k]
    {
      assert s[i..i + |needle|][k] == s[i + k];
    }
    assert low[i..i + |needle|] == needle;
    assert OccursAt(low, needle, i);
  }
}
