/** The regular expressions `read_serial_output` runs on each boot-log line,
    written out as matchers.  Every pattern is searched case-insensitively
    (`re.IGNORECASE`) and the leftmost match wins (`re.search`); what is
    captured keeps the case it has in the line.

    A pattern is a table entry, not code: an optional tag followed by `\s*`,
    an optional excluded prefix (a negative lookbehind), and the token shape
    that group 1 captures.  Each field has an ordered list of patterns; the
    first pattern that matches anywhere in the line decides the field. */
module Patterns {
  import opened Common
  import opened Text

  /** The shape of the captured group. */
  datatype Token =
    | ZapSerial              // zap-[A-Fa-f0-9]+
    | HexAtLeast(min: nat)   // [A-Fa-f0-9]{min,}
    | HexExactly(width: nat) // [A-Fa-f0-9]{width}
    | VersionWord            // [A-Za-z0-9._-]+

  datatype Pattern =
    | Bare(token: Token)                                        // (token)
    | Labelled(tag: string, token: Token)                     // tag\s*(token)
    | LabelledNotAfter(excluded: string, tag: string, token: Token)  // (?<!excluded)tag\s*(token)

  /** What a capture of the given shape looks like. */
  predicate Fits(t: Token, c: string) {
    match t
    case ZapSerial => |c| >= 5 && CiOccursAt(c, "zap-", 0) && forall k :: 4 <= k < |c| ==> IsHex(c[k])
    case HexAtLeast(m) => |c| >= m && forall k :: 0 <= k < |c| ==> IsHex(c[k])
    case HexExactly(w) => |c| == w && forall k :: 0 <= k < |c| ==> IsHex(c[k])
    case VersionWord => |c| >= 1 && forall k :: 0 <= k < |c| ==> IsVersionChar(c[k])
  }

  /** The character class a greedy token keeps consuming. */
  predicate Extends(t: Token, c: char) {
    if t.VersionWord? then IsVersionChar(c) else IsHex(c)
  }

  /** `w` hex digits stand in `line` from index `j` on. */
  predicate HexWindowAt(line: string, j: nat, w: nat) {
    j + w <= |line| && forall k :: j <= k < j + w ==> IsHex(line[k])
  }

  /** `zap-` (any case) followed by at least one hex digit starts at `j`. */
  predicate ZapAt(line: string, j: nat) {
    CiOccursAt(line, "zap-", j) && j + 4 < |line| && IsHex(line[j + 4])
  }

  /** `zap-[A-Fa-f0-9]+` at index `j`: the prefix and the longest hex run after it. */
  function ZapTokenAt(line: string, j: nat): (r: Option<string>)
    requires j <= |line|
    ensures r.Some? ==> Fits(ZapSerial, r.value) && OccursAt(line, r.value, j)
    ensures r.Some? ==> j + |r.value| == |line| || !IsHex(line[j + |r.value|])
    ensures r.Some? <==> ZapAt(line, j)
  {
    if CiOccursAt(line, "zap-", j) && Span(line, j + 4, IsHex) >= 1 then
      var c := line[j..j + 4 + Span(line, j + 4, IsHex)];
      assert CiOccursAt(c, "zap-", 0) by {
        forall k | 0 <= k < 4 ensures Lower(c[k]) == Lower("zap-"[k]) {
          assert c[k] == line[j + k];
        }
      }
      Some(c)
    else None
  }

  /** A greedy run of at least `m` characters of class `p` at index `j`. */
  function RunAt(line: string, j: nat, p: char -> bool, m: nat): (r: Option<string>)
    requires j <= |line|
    ensures r.Some? ==> |r.value| >= m && OccursAt(line, r.value, j)
    ensures r.Some? ==> forall k :: 0 <= k < |r.value| ==> p(r.value[k])
    ensures r.Some? ==> j + |r.value| == |line| || !p(line[j + |r.value|])
    ensures r.Some? <==> j + m <= |line| && forall k :: j <= k < j + m ==> p(line[k])
  {
    var n := Span(line, j, p);
    assert (j + m <= |line| && forall k :: j <= k < j + m ==> p(line[k])) ==> n >= m by {
      if j + m <= |line| && forall k :: j <= k < j + m ==> p(line[k]) {
        SpanCovers(line, j, p, m);
      }
    }
    if n >= m then Some(line[j..j + n]) else None
  }

  /** Exactly `w` hex digits at index `j`, whatever follows them. */
  function HexWindowTokenAt(line: string, j: nat, w: nat): (r: Option<string>)
    requires j <= |line|
    ensures r.Some? ==> Fits(HexExactly(w), r.value) && OccursAt(line, r.value, j)
    ensures r.Some? <==> HexWindowAt(line, j, w)
  {
    if j + w <= |line| && forall k :: j <= k < j + w ==> IsHex(line[k]) then
      Some(line[j..j + w])
    else None
  }

  /** The token matched at index `j`, if any.  The greedy shapes take the
      longest run they can, which is also the only run the rest of the
      pattern can follow, since nothing comes after the group. */
  function TokenAt(line: string, j: nat, t: Token): (r: Option<string>)
    requires j <= |line|
    ensures r.Some? ==> Fits(t, r.value) && OccursAt(line, r.value, j)
    ensures r.Some? && !t.HexExactly? ==> j + |r.value| == |line| || !Extends(t, line[j + |r.value|])
    ensures t.ZapSerial? ==> (r.Some? <==> ZapAt(line, j))
    ensures t.HexExactly? ==> (r.Some? <==> HexWindowAt(line, j, t.width))
    ensures t.HexAtLeast? ==> (r.Some? <==> HexWindowAt(line, j, t.min))
    ensures t.VersionWord? ==> (r.Some? <==> j < |line| && IsVersionChar(line[j]))
  {
    match t
    case ZapSerial => ZapTokenAt(line, j)
    case HexAtLeast(m) => RunAt(line, j, IsHex, m)
    case HexExactly(w) => HexWindowTokenAt(line, j, w)
    case VersionWord => RunAt(line, j, IsVersionChar, 1)
  }

  /** The index where the token after `tag\s*` starts. */
  function AfterLabel(line: string, i: nat, tag: string): (j: nat)
    requires i + |tag| <= |line|
    ensures i + |tag| <= j <= |line|
    ensures forall k :: i + |tag| <= k < j ==> IsSpace(line[k])
  {
    i + |tag| + Span(line, i + |tag|, IsSpace)
  }

  /** `tag\s*(token)` matched at index `i`.  Taking all the whitespace is
      the only way to succeed, as no token starts with whitespace. */
  function LabelledAt(line: string, i: nat, tag: string, t: Token): (r: Option<string>)
    requires i <= |line|
  {
    if CiOccursAt(line, tag, i) then TokenAt(line, AfterLabel(line, i, tag), t) else None
  }

  /** The negative lookbehind `(?<!excluded)` fails at index `i`. */
  predicate PrecededBy(line: string, i: nat, excluded: string) {
    i >= |excluded| && CiOccursAt(line, excluded, i - |excluded|)
  }

  /** Group 1 of the pattern when the match starts at index `i`. */
  function MatchAt(line: string, i: nat, p: Pattern): Option<string>
    requires i <= |line|
  {
    match p
    case Bare(t) => TokenAt(line, i, t)
    case Labelled(tag, t) => LabelledAt(line, i, tag, t)
    case LabelledNotAfter(excluded, tag, t) =>
      if PrecededBy(line, i, excluded) then None else LabelledAt(line, i, tag, t)
  }

  /** A match starting at `i` captures the pattern's token at `i` or later. */
  lemma MatchAtToken(line: string, i: nat, p: Pattern)
    requires i <= |line| && MatchAt(line, i, p).Some?
    ensures exists j :: i <= j <= |line| && TokenAt(line, j, p.token) == MatchAt(line, i, p)
  {
    if !p.Bare? {
      var j := AfterLabel(line, i, p.tag);
      assert TokenAt(line, j, p.token) == MatchAt(line, i, p);
    }
  }

  /** The first index from `from` on where the pattern matches. */
  function Leftmost(line: string, p: Pattern, from: nat): (r: Option<nat>)
    requires from <= |line|
    ensures r.Some? ==> from <= r.value <= |line| && MatchAt(line, r.value, p).Some?
    ensures r.Some? ==> forall k :: from <= k < r.value ==> MatchAt(line, k, p).None?
    ensures r.None? ==> forall k :: from <= k <= |line| ==> MatchAt(line, k, p).None?
    decreases |line| - from
  {
    if MatchAt(line, from, p).Some? then Some(from)
    else if from == |line| then None
    else Leftmost(line, p, from + 1)
  }

  /** `re.search(p, line, re.IGNORECASE).group(1)`, or None without a match. */
  function Search(line: string, p: Pattern): Option<string> {
    match Leftmost(line, p, 0)
    case Some(k) => MatchAt(line, k, p)
    case None => None
  }

  /** Search finds a match exactly when the pattern matches at some index,
      and then yields the capture of the leftmost one. */
  lemma SearchLeftmost(line: string, p: Pattern)
    ensures Search(line, p).Some? <==> exists k :: 0 <= k <= |line| && MatchAt(line, k, p).Some?
    ensures Search(line, p).Some? ==>
      exists k :: 0 <= k <= |line| && MatchAt(line, k, p) == Search(line, p)
        && forall j :: 0 <= j < k ==> MatchAt(line, j, p).None?
  {
    var l := Leftmost(line, p, 0);
    if l.Some? {
      assert MatchAt(line, l.value, p) == Search(line, p);
    }
  }

  /** The capture of the first pattern in the list that matches the line. */
  function FirstMatch(line: string, ps: seq<Pattern>): Option<string>
    decreases |ps|
  {
    if ps == [] then None
    else if Search(line, ps[0]).Some? then Search(line, ps[0])
    else FirstMatch(line, ps[1..])
  }

  /** FirstMatch yields nothing only when no pattern of the list matches, and
      otherwise what the first matching pattern captures. */
  lemma {:induction false} FirstMatchFirst(line: string, ps: seq<Pattern>)
    ensures FirstMatch(line, ps).None? <==> forall k :: 0 <= k < |ps| ==> Search(line, ps[k]).None?
    ensures FirstMatch(line, ps).Some? ==>
      exists k :: 0 <= k < |ps| && Search(line, ps[k]) == FirstMatch(line, ps)
        && forall j :: 0 <= j < k ==> Search(line, ps[j]).None?
    decreases |ps|
  {
    if ps != [] && Search(line, ps[0]).None? {
      FirstMatchFirst(line, ps[1..]);
      assert forall k :: 1 <= k < |ps| ==> ps[1..][k - 1] == ps[k];
      if FirstMatch(line, ps).Some? {
        var k :| 0 <= k < |ps| - 1 && Search(line, ps[1..][k]) == FirstMatch(line, ps)
          && forall j :: 0 <= j < k ==> Search(line, ps[1..][j]).None?;
        assert Search(line, ps[k + 1]) == FirstMatch(line, ps);
      }
    }
  }

  /** Trying `a` and then `b` is trying `a`, and `b` only if nothing in `a` matched. */
  lemma {:induction false} FirstMatchAppend(line: string, a: seq<Pattern>, b: seq<Pattern>)
    ensures FirstMatch(line, a + b) == if FirstMatch(line, a).Some? then FirstMatch(line, a) else FirstMatch(line, b)
  {
    if a != [] {
      assert (a + b)[0] == a[0];
      assert (a + b)[1..] == a[1..] + b;
      FirstMatchAppend(line, a[1..], b);
    } else {
      assert a + b == b;
    }
  }

  // The pattern tables of flasher.py, in the order they are tried.

  const SerialLabelled: seq<Pattern> :=
    [Labelled("serial number:", ZapSerial), Labelled("device id:", ZapSerial), Labelled("serial:", ZapSerial)]
  const SerialBare: Pattern := Bare(ZapSerial)
  const SerialPatterns: seq<Pattern> := SerialLabelled + [SerialBare]

  const KeyLabelled: seq<Pattern> :=
    [Labelled("public key:", HexAtLeast(32)), Labelled("pubkey:", HexAtLeast(32)), Labelled("key:", HexAtLeast(32))]
  const KeyBare: seq<Pattern> := [Bare(HexExactly(64)), Bare(HexExactly(32))]
  const KeyPatterns: seq<Pattern> := KeyLabelled + KeyBare

  const VersionPattern: Pattern := LabelledNotAfter("coex ", "firmware version:", VersionWord)

  /** The serial number found on a line, if any. */
  function FindSerial(line: string): Option<string> {
    FirstMatch(line, SerialPatterns)
  }

  /** The public key found on a line, if any. */
  function FindKey(line: string): Option<string> {
    FirstMatch(line, KeyPatterns)
  }

  /** The firmware version found on a line, if any. */
  function FindVersion(line: string): Option<string> {
    Search(line, VersionPattern)
  }

  /** Whatever a pattern list yields was captured, at some index of the line,
      by one of the token shapes its patterns use. */
  lemma CaptureFromList(line: string, ps: seq<Pattern>, shapes: set<Token>)
    requires forall k :: 0 <= k < |ps| ==> ps[k].token in shapes
    requires FirstMatch(line, ps).Some?
    ensures exists j, t :: 0 <= j <= |line| && t in shapes && TokenAt(line, j, t) == FirstMatch(line, ps)
  {
    FirstMatchFirst(line, ps);
    var k :| 0 <= k < |ps| && Search(line, ps[k]) == FirstMatch(line, ps);
    SearchLeftmost(line, ps[k]);
    var i :| 0 <= i <= |line| && MatchAt(line, i, ps[k]) == Search(line, ps[k]);
    MatchAtToken(line, i, ps[k]);
  }

  /** An extracted serial is `zap-` (any case) followed by hex digits only,
      stands in the line, and takes the whole hex run that follows `zap-`. */
  lemma SerialShape(line: string)
    requires FindSerial(line).Some?
    ensures var s := FindSerial(line).value;
      Fits(ZapSerial, s)
      && exists j: nat :: OccursAt(line, s, j) && (j + |s| == |line| || !IsHex(line[j + |s|]))
  {
    CaptureFromList(line, SerialPatterns, {ZapSerial});
  }

  /** A serial is found exactly when some `zap-` on the line is followed by a hex digit. */
  lemma SerialFoundIff(line: string)
    ensures FindSerial(line).Some? <==> exists j :: 0 <= j <= |line| && ZapAt(line, j)
  {
    if FindSerial(line).Some? {
      CaptureFromList(line, SerialPatterns, {ZapSerial});
    }
    if exists j :: 0 <= j <= |line| && ZapAt(line, j) {
      var j :| 0 <= j <= |line| && ZapAt(line, j);
      assert MatchAt(line, j, SerialBare).Some?;
      SearchLeftmost(line, SerialBare);
      FirstMatchFirst(line, SerialPatterns);
      assert SerialPatterns[3] == SerialBare;
    }
  }

  /** The labelled forms are tried first: the bare `zap-` search decides only
      when none of "serial number:", "device id:", "serial:" matches. */
  lemma SerialLabelsFirst(line: string)
    ensures FindSerial(line) ==
      if FirstMatch(line, SerialLabelled).Some? then FirstMatch(line, SerialLabelled) else Search(line, SerialBare)
  {
    FirstMatchAppend(line, SerialLabelled, [SerialBare]);
    assert FirstMatch(line, [SerialBare]) == Search(line, SerialBare) by {
      assert [SerialBare][1..] == [];
    }
  }

  /** An extracted public key is a run of at least 32 hex digits taken from the line. */
  lemma KeyShape(line: string)
    requires FindKey(line).Some?
    ensures var key := FindKey(line).value;
      |key| >= 32 && (forall k :: 0 <= k < |key| ==> IsHex(key[k])) && Contains(line, key)
  {
    CaptureFromList(line, KeyPatterns, {HexAtLeast(32), HexExactly(64), HexExactly(32)});
  }

  /** Some run of `w` hex digits stands in the line. */
  predicate HasHexWindow(line: string, w: nat) {
    exists j :: 0 <= j <= |line| && HexWindowAt(line, j, w)
  }

  /** A bare `(hex{w})` search succeeds exactly when the line holds `w` hex
      digits in a row, and captures exactly `w` of them. */
  lemma HexWindowSearch(line: string, w: nat)
    ensures Search(line, Bare(HexExactly(w))).Some? <==> HasHexWindow(line, w)
    ensures Search(line, Bare(HexExactly(w))).Some? ==> |Search(line, Bare(HexExactly(w))).value| == w
  {
    var p := Bare(HexExactly(w));
    SearchLeftmost(line, p);
    if HasHexWindow(line, w) {
      var j :| 0 <= j <= |line| && HexWindowAt(line, j, w);
      assert MatchAt(line, j, p).Some?;
    }
    if Search(line, p).Some? {
      var i :| 0 <= i <= |line| && MatchAt(line, i, p) == Search(line, p);
      assert HexWindowAt(line, i, w);
    }
  }

  /** The two bare key patterns: the first 64-hex window if there is one,
      otherwise the first 32-hex window. */
  lemma KeyBareFallback(line: string)
    ensures FirstMatch(line, KeyBare).Some? <==> HasHexWindow(line, 32)
    ensures FirstMatch(line, KeyBare).Some? ==>
      (|FirstMatch(line, KeyBare).value| == 64 <==> HasHexWindow(line, 64))
    ensures FirstMatch(line, KeyBare).Some? ==> |FirstMatch(line, KeyBare).value| in {32, 64}
  {
    HexWindowSearch(line, 64);
    HexWindowSearch(line, 32);
    if HasHexWindow(line, 64) {
      var j :| 0 <= j <= |line| && HexWindowAt(line, j, 64);
      assert HexWindowAt(line, j, 32);
    }
    assert FirstMatch(line, KeyBare) ==
      if Search(line, Bare(HexExactly(64))).Some? then Search(line, Bare(HexExactly(64)))
      else Search(line, Bare(HexExactly(32))) by {
      assert KeyBare[1..][1..] == [];
    }
  }

  /** The bare fallback takes 64 hex digits, or 32 only when the line holds
      no 64-hex window; and a key is found exactly when the line holds a run
      of 32 hex digits. */
  lemma KeyFoundIff(line: string)
    ensures FindKey(line).Some? <==> HasHexWindow(line, 32)
    ensures FirstMatch(line, KeyLabelled).None? && FindKey(line).Some? ==>
      |FindKey(line).value| == 64 || (|FindKey(line).value| == 32 && !HasHexWindow(line, 64))
  {
    FirstMatchAppend(line, KeyLabelled, KeyBare);
    KeyBareFallback(line);
    if FirstMatch(line, KeyLabelled).Some? {
      CaptureFromList(line, KeyLabelled, {HexAtLeast(32)});
      var j :| 0 <= j <= |line| && TokenAt(line, j, HexAtLeast(32)) == FirstMatch(line, KeyLabelled);
      assert HexWindowAt(line, j, 32);
    }
  }

  /** A tag that ends with a shorter tag: wherever the long one matches,
      the short one matches inside it and captures the same text. */
  lemma TagSuffixMatches(line: string, i: nat, long: string, short: string, t: Token)
    requires i <= |line| && |short| <= |long|
    requires long[|long| - |short|..] == short
    requires CiOccursAt(line, long, i)
    ensures LabelledAt(line, i + |long| - |short|, short, t) == LabelledAt(line, i, long, t)
  {
    var d := |long| - |short|;
    forall k | 0 <= k < |short| ensures Lower(line[i + d + k]) == Lower(short[k]) {
      assert short[k] == long[|long| - |short|..][k] == long[d + k];
    }
    assert CiOccursAt(line, short, i + d);
    assert AfterLabel(line, i + d, short) == AfterLabel(line, i, long);
  }

  /** Whenever a pattern with the longer tag finds something, so does the
      pattern with a tag it ends with. */
  lemma TagSuffixSearch(line: string, long: string, short: string, t: Token)
    requires |short| <= |long| && long[|long| - |short|..] == short
    ensures Search(line, Labelled(long, t)).Some? ==> Search(line, Labelled(short, t)).Some?
  {
    SearchLeftmost(line, Labelled(long, t));
    SearchLeftmost(line, Labelled(short, t));
    if Search(line, Labelled(long, t)).Some? {
      var i :| 0 <= i <= |line| && MatchAt(line, i, Labelled(long, t)).Some?;
      TagSuffixMatches(line, i, long, short, t);
      assert MatchAt(line, i + |long| - |short|, Labelled(short, t)).Some?;
    }
  }

  /** `key:` also matches inside `public key:` and `pubkey:`, so the labelled
      key forms find something exactly when the plain `key:` form does. */
  lemma KeyTagCoversOthers(line: string)
    ensures FirstMatch(line, KeyLabelled).Some? <==> Search(line, Labelled("key:", HexAtLeast(32))).Some?
  {
    TagSuffixSearch(line, "public key:", "key:", HexAtLeast(32));
    TagSuffixSearch(line, "pubkey:", "key:", HexAtLeast(32));
    FirstMatchFirst(line, KeyLabelled);
  }

  /** The firmware version is a run of letters, digits, `.`, `_` and `-`,
      captured after a "firmware version:" that "coex " does not immediately
      precede; and one is found exactly when such an occurrence is followed
      by a version character. */
  lemma VersionNotAfterCoex(line: string)
    ensures FindVersion(line).Some? <==>
      exists i :: 0 <= i <= |line| && !PrecededBy(line, i, "coex ")
        && LabelledAt(line, i, "firmware version:", VersionWord).Some?
    ensures FindVersion(line).Some? ==>
      Fits(VersionWord, FindVersion(line).value)
      && (exists i :: 0 <= i <= |line| && !PrecededBy(line, i, "coex ")
            && LabelledAt(line, i, "firmware version:", VersionWord) == FindVersion(line))
  {
    SearchLeftmost(line, VersionPattern);
    if exists i :: 0 <= i <= |line| && !PrecededBy(line, i, "coex ")
        && LabelledAt(line, i, "firmware version:", VersionWord).Some? {
      var i :| 0 <= i <= |line| && !PrecededBy(line, i, "coex ")
        && LabelledAt(line, i, "firmware version:", VersionWord).Some?;
      assert MatchAt(line, i, VersionPattern).Some?;
    }
    if FindVersion(line).Some? {
      var i :| 0 <= i <= |line| && MatchAt(line, i, VersionPattern) == FindVersion(line);
      assert !PrecededBy(line, i, "coex ");
      assert LabelledAt(line, i, "firmware version:", VersionWord) == FindVersion(line);
      MatchAtToken(line, i, VersionPattern);
    }
  }
}
