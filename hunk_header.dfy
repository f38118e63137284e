/**
 * The hunk-header recogniser of the unified diff format, as the pattern
 * `@@ -(\d+)(?:,)?(\d+)? \+(\d+)(?:,)?(\d+)? @@` matches it: anywhere in a
 * line (the pattern is unanchored), at the leftmost position where it
 * matches, with every digit run as long as possible. Of a match only the
 * new-file side is kept: its start, and its count or 1 when it is missing.
 */
module HunkHeader {
  import opened Wrappers

  /** One hunk on the new-file side: `count` lines from line `start`. */
  datatype Hunk = Hunk(start: nat, count: nat)

  predicate IsDigit(c: char) {
    '0' <= c <= '9'
  }

  predicate AllDigits(s: string) {
    forall k :: 0 <= k < |s| ==> IsDigit(s[k])
  }

  /** Where the run of digits that starts at i ends (a greedy `\d*`). */
  function DigitsEnd(s: string, i: nat): (j: nat)
    requires i <= |s|
    ensures i <= j <= |s|
    ensures j == |s| || !IsDigit(s[j])
    decreases |s| - i
  {
    if i < |s| && IsDigit(s[i]) then DigitsEnd(s, i + 1) else i
  }

  function DigitValue(c: char): nat {
    if IsDigit(c) then c as int - '0' as int else 0
  }

  /** Ruby's `to_i` on a run of decimal digits. */
  function Value(ds: string): nat {
    if ds == [] then 0 else 10 * Value(ds[..|ds| - 1]) + DigitValue(ds[|ds| - 1])
  }

  /** The literal text lit occurs in s at position i. */
  predicate LiteralAt(s: string, i: nat, lit: string) {
    i + |lit| <= |s| && forall k :: 0 <= k < |lit| ==> s[i + k] == lit[k]
  }

  /** What `(\d+)(?:,)?(\d+)?` captures, as written, and where the match ends. */
  datatype RangeMatch = RangeMatch(side: RangeText, end: nat)

  /** Matches `(\d+)(?:,)?(\d+)?` at position i. */
  function MatchRange(s: string, i: nat): (r: Option<RangeMatch>)
    requires i <= |s|
    ensures r.Some? ==> i < r.value.end <= |s|
  {
    var j := DigitsEnd(s, i);
    if j == i then None
    else
      var k := if j < |s| && s[j] == ',' then j + 1 else j;
      var l := DigitsEnd(s, k);
      Some(RangeMatch(RangeText(s[i..j], k > j, s[k..l]), l))
  }

  /** Matches the whole header pattern starting exactly at position i. */
  function MatchAt(s: string, i: nat): Option<Hunk>
    requires i <= |s|
  {
    if !LiteralAt(s, i, "@@ -") then None
    else match MatchRange(s, i + 4)
      case None => None
      case Some(oldSide) =>
        if !LiteralAt(s, oldSide.end, " +") then None
        else match MatchRange(s, oldSide.end + 2)
          case None => None
          case Some(newSide) =>
            if LiteralAt(s, newSide.end, " @@") then Some(HunkOf(newSide.side))
            else None
  }

  /** What the pattern yields when tried at each start position of s. */
  function Matches(s: string): seq<Option<Hunk>> {
    seq(|s|, k requires 0 <= k < |s| => MatchAt(s, k))
  }

  /** The first match in ms at or after position i: start positions are tried from left to right. */
  function Leftmost(ms: seq<Option<Hunk>>, i: nat): Option<Hunk>
    requires i <= |ms|
    decreases |ms| - i
  {
    if i == |ms| then None
    else if ms[i].Some? then ms[i]
    else Leftmost(ms, i + 1)
  }

  /** No position from i up to (not including) j has a match. */
  predicate NoneBetween(ms: seq<Option<Hunk>>, i: nat, j: nat)
    requires j <= |ms|
  {
    forall k :: i <= k < j ==> ms[k].None?
  }

  /** The scan from i yields nothing exactly when no position from i on has a match. */
  lemma {:induction false} LeftmostNone(ms: seq<Option<Hunk>>, i: nat)
    requires i <= |ms|
    ensures Leftmost(ms, i).None? <==> NoneBetween(ms, i, |ms|)
    decreases |ms| - i
  {
    if i < |ms| && ms[i].None? {
      LeftmostNone(ms, i + 1);
    }
  }

  /** What the scan from i yields is the match at the leftmost position that has one. */
  lemma {:induction false} LeftmostSome(ms: seq<Option<Hunk>>, i: nat) returns (k: nat)
    requires i <= |ms| && Leftmost(ms, i).Some?
    ensures i <= k < |ms| && ms[k] == Leftmost(ms, i) && NoneBetween(ms, i, k)
    decreases |ms| - i
  {
    if ms[i].Some? {
      k := i;
    } else {
      k := LeftmostSome(ms, i + 1);
    }
  }

  /** The `(new_start, new_count)` pair of the first hunk header in line, if there is one. */
  function ParseHeader(line: string): Option<Hunk> {
    Leftmost(Matches(line), 0)
  }

  // ---- The header text the pattern accepts, for stating what the parser does ----

  function DigitChar(d: nat): char
    requires d < 10
  {
    ('0' as int + d) as char
  }

  /** A number written in decimal, without leading zeros. */
  function Show(n: nat): (s: string)
    ensures s != [] && AllDigits(s)
  {
    if n < 10 then [DigitChar(n)] else Show(n / 10) + [DigitChar(n % 10)]
  }

  /** `to_i` reads a number written in decimal back as that number. */
  lemma {:induction false} ValueShow(n: nat)
    ensures Value(Show(n)) == n
  {
    if n >= 10 {
      var s := Show(n);
      assert s[..|s| - 1] == Show(n / 10);
      ValueShow(n / 10);
    }
  }

  /**
   * One side of a header as written: the digits of its start, an optional
   * comma, and the digits of its count (none when there is no count).
   * Leading zeros are allowed. A count needs the comma before it, since
   * without one its digits would run into the start's.
   */
  datatype RangeText = RangeText(start: string, comma: bool, count: string) {
    predicate Valid() {
      start != [] && AllDigits(start) && AllDigits(count) && (count != [] ==> comma)
    }

    function Text(): string {
      start + (if comma then "," else "") + count
    }

    /** The count group read with `to_i`, or nothing when the group took no part. */
    function Count(): Option<nat> {
      if count == [] then None else Some(Value(count))
    }
  }

  /** A hunk header `@@ -<old> +<new> @@`. */
  function HeaderText(oldSide: RangeText, newSide: RangeText): string {
    "@@ -" + oldSide.Text() + " +" + newSide.Text() + " @@"
  }

  /** What a match of a header yields: the new start, and the new count or 1. */
  function HunkOf(newSide: RangeText): Hunk {
    Hunk(Value(newSide.start), newSide.Count().GetOr(1))
  }

  /** Header text with these two sides stands at position i of s. */
  predicate HeaderAt(s: string, i: nat, oldSide: RangeText, newSide: RangeText) {
    oldSide.Valid() && newSide.Valid() && LiteralAt(s, i, HeaderText(oldSide, newSide))
  }

  /** Some header text stands at position i of s. */
  ghost predicate HasHeaderAt(s: string, i: nat) {
    exists oldSide, newSide :: HeaderAt(s, i, oldSide, newSide)
  }

  /** Header text stands at position i of s and yields h. */
  ghost predicate HeaderFor(s: string, i: nat, h: Hunk) {
    exists oldSide, newSide :: HeaderAt(s, i, oldSide, newSide) && HunkOf(newSide) == h
  }

  lemma {:induction false} DigitsEndAt(s: string, i: nat, ds: string)
    requires LiteralAt(s, i, ds) && AllDigits(ds)
    requires i + |ds| == |s| || !IsDigit(s[i + |ds|])
    ensures DigitsEnd(s, i) == i + |ds|
    decreases |ds|
  {
    if ds != [] {
      assert s[i] == ds[0];
      assert forall k :: 0 <= k < |ds[1..]| ==> s[i + 1 + k] == ds[1..][k];
      DigitsEndAt(s, i + 1, ds[1..]);
    }
  }

  /** The run DigitsEnd measures is all digits. */
  lemma {:induction false} DigitsEndDigits(s: string, i: nat)
    requires i <= |s|
    ensures AllDigits(s[i..DigitsEnd(s, i)])
    decreases |s| - i
  {
    if i < |s| && IsDigit(s[i]) {
      DigitsEndDigits(s, i + 1);
      var j := DigitsEnd(s, i);
      assert s[i..j] == [s[i]] + s[i + 1..j];
    }
  }

  lemma LiteralSlice(s: string, i: nat, j: nat)
    requires i <= j <= |s|
    ensures LiteralAt(s, i, s[i..j])
  {
    forall k | 0 <= k < j - i ensures s[i + k] == s[i..j][k] {
    }
  }

  lemma LiteralSplit(s: string, i: nat, a: string, b: string)
    requires LiteralAt(s, i, a + b)
    ensures LiteralAt(s, i, a) && LiteralAt(s, i + |a|, b)
  {
    forall k | 0 <= k < |b| ensures s[i + |a| + k] == b[k] {
      assert (a + b)[|a| + k] == b[k];
    }
    forall k | 0 <= k < |a| ensures s[i + k] == a[k] {
      assert (a + b)[k] == a[k];
    }
  }

  lemma LiteralChar(s: string, i: nat, a: string)
    requires LiteralAt(s, i, a) && a != []
    ensures s[i] == a[0]
  {
    assert s[i + 0] == a[0];
  }

  lemma LiteralJoin(s: string, i: nat, a: string, b: string)
    requires LiteralAt(s, i, a) && LiteralAt(s, i + |a|, b)
    ensures LiteralAt(s, i, a + b)
  {
    forall k | 0 <= k < |a + b| ensures s[i + k] == (a + b)[k] {
      if k >= |a| {
        assert s[i + |a| + (k - |a|)] == b[k - |a|];
      }
    }
  }

  /** The text lit followed by the character c. */
  lemma LiteralThen(s: string, i: nat, lit: string, c: char)
    requires LiteralAt(s, i, lit + [c])
    ensures LiteralAt(s, i, lit) && i + |lit| < |s| && s[i + |lit|] == c
  {
    LiteralSplit(s, i, lit, [c]);
    LiteralChar(s, i + |lit|, [c]);
  }

  /** A run of digits followed by a non-digit is captured whole. */
  lemma NumberAt(s: string, i: nat, ds: string)
    requires ds != [] && AllDigits(ds) && LiteralAt(s, i, ds)
    requires i + |ds| < |s| && !IsDigit(s[i + |ds|])
    ensures DigitsEnd(s, i) == i + |ds|
    ensures s[i..i + |ds|] == ds
  {
    DigitsEndAt(s, i, ds);
  }

  lemma MatchRangeParts(s: string, i: nat, j: nat, k: nat, l: nat)
    requires i < j <= |s| && DigitsEnd(s, i) == j
    requires k == (if j < |s| && s[j] == ',' then j + 1 else j)
    requires k <= |s| && DigitsEnd(s, k) == l
    ensures MatchRange(s, i) == Some(RangeMatch(RangeText(s[i..j], k > j, s[k..l]), l))
  {
  }

  /** `start` then a space: no count. */
  lemma MatchStartOnly(s: string, i: nat, a: string)
    requires a != [] && AllDigits(a) && LiteralAt(s, i, a)
    requires i + |a| < |s| && s[i + |a|] == ' '
    ensures MatchRange(s, i) == Some(RangeMatch(RangeText(a, false, ""), i + |a|))
  {
    var j := i + |a|;
    NumberAt(s, i, a);
    assert s[j..j] == "";
    MatchRangeParts(s, i, j, j, j);
  }

  /** `start,` then a space: the comma is taken, and there is no count. */
  lemma MatchStartComma(s: string, i: nat, a: string)
    requires a != [] && AllDigits(a) && LiteralAt(s, i, a)
    requires i + |a| + 1 < |s| && s[i + |a|] == ',' && s[i + |a| + 1] == ' '
    ensures MatchRange(s, i) == Some(RangeMatch(RangeText(a, true, ""), i + |a| + 1))
  {
    var j := i + |a|;
    NumberAt(s, i, a);
    assert s[j + 1..j + 1] == "";
    MatchRangeParts(s, i, j, j + 1, j + 1);
  }

  /** `start,count` then a space. */
  lemma MatchStartCount(s: string, i: nat, a: string, b: string)
    requires a != [] && AllDigits(a) && LiteralAt(s, i, a)
    requires i + |a| < |s| && s[i + |a|] == ','
    requires b != [] && AllDigits(b) && LiteralAt(s, i + |a| + 1, b)
    requires i + |a| + 1 + |b| < |s| && s[i + |a| + 1 + |b|] == ' '
    ensures MatchRange(s, i) == Some(RangeMatch(RangeText(a, true, b), i + |a| + 1 + |b|))
  {
    var j := i + |a|;
    NumberAt(s, i, a);
    NumberAt(s, j + 1, b);
    MatchRangeParts(s, i, j, j + 1, j + 1 + |b|);
  }

  /** A written side followed by a space is captured as its start and count. */
  lemma MatchRangeText(s: string, i: nat, r: RangeText)
    requires r.Valid() && LiteralAt(s, i, r.Text() + " ")
    ensures MatchRange(s, i) == Some(RangeMatch(r, i + |r.Text()|))
  {
    if !r.comma {
      MatchTextStartOnly(s, i, r);
    } else if r.count == [] {
      MatchTextStartComma(s, i, r);
    } else {
      MatchTextStartCount(s, i, r);
    }
  }

  lemma MatchTextStartOnly(s: string, i: nat, r: RangeText)
    requires r.Valid() && !r.comma && LiteralAt(s, i, r.Text() + " ")
    ensures MatchRange(s, i) == Some(RangeMatch(r, i + |r.Text()|))
  {
    assert r.Text() == r.start;
    LiteralThen(s, i, r.start, ' ');
    MatchStartOnly(s, i, r.start);
  }

  lemma MatchTextStartComma(s: string, i: nat, r: RangeText)
    requires r.Valid() && r.comma && r.count == [] && LiteralAt(s, i, r.Text() + " ")
    ensures MatchRange(s, i) == Some(RangeMatch(r, i + |r.Text()|))
  {
    var a := r.start;
    assert r.Text() == a + [','];
    LiteralThen(s, i, a + [','], ' ');
    LiteralThen(s, i, a, ',');
    MatchStartComma(s, i, a);
  }

  lemma MatchTextStartCount(s: string, i: nat, r: RangeText)
    requires r.Valid() && r.count != [] && LiteralAt(s, i, r.Text() + " ")
    ensures MatchRange(s, i) == Some(RangeMatch(r, i + |r.Text()|))
  {
    var a, b := r.start, r.count;
    assert r.Text() == a + [','] + b;
    assert r.Text() + " " == (a + [',']) + (b + [' ']);
    LiteralSplit(s, i, a + [','], b + [' ']);
    LiteralThen(s, i, a, ',');
    LiteralThen(s, i + |a| + 1, b, ' ');
    MatchStartCount(s, i, a, b);
  }

  /** The five pieces of a header text, each where the pattern looks for it. */
  lemma HeaderPieces(s: string, i: nat, o: string, n: string)
    requires LiteralAt(s, i, "@@ -" + o + " +" + n + " @@")
    ensures LiteralAt(s, i, "@@ -") && LiteralAt(s, i + 4, o + " ")
    ensures LiteralAt(s, i + 4 + |o|, " +") && LiteralAt(s, i + 4 + |o| + 2, n + " ")
    ensures LiteralAt(s, i + 4 + |o| + 2 + |n|, " @@")
  {
    var q := i + 4 + |o|;
    var e := q + 2 + |n|;
    LiteralSplit(s, i, "@@ -" + o + " +" + n, " @@");
    LiteralSplit(s, i, "@@ -" + o + " +", n);
    LiteralSplit(s, i, "@@ -" + o, " +");
    LiteralSplit(s, i, "@@ -", o);
    assert " +" == " " + "+";
    LiteralSplit(s, q, " ", "+");
    LiteralJoin(s, i + 4, o, " ");
    assert " @@" == " " + "@@";
    LiteralSplit(s, e, " ", "@@");
    LiteralJoin(s, q + 2, n, " ");
  }

  /** A well-formed header at position i is matched there, yielding its new side. */
  lemma MatchAtHeader(s: string, i: nat, oldSide: RangeText, newSide: RangeText)
    requires HeaderAt(s, i, oldSide, newSide)
    ensures MatchAt(s, i) == Some(HunkOf(newSide))
  {
    var q := i + 4 + |oldSide.Text()|;
    var e := q + 2 + |newSide.Text()|;
    HeaderSides(s, i, oldSide, newSide);
    MatchAtParts(s, i, RangeMatch(oldSide, q), RangeMatch(newSide, e));
  }

  /** Each piece of a header text is recognised where the pattern looks for it. */
  lemma HeaderSides(s: string, i: nat, oldSide: RangeText, newSide: RangeText)
    requires HeaderAt(s, i, oldSide, newSide)
    ensures var q := i + 4 + |oldSide.Text()|;
      LiteralAt(s, i, "@@ -") && MatchRange(s, i + 4) == Some(RangeMatch(oldSide, q))
    ensures var q := i + 4 + |oldSide.Text()|;
      var e := q + 2 + |newSide.Text()|;
      LiteralAt(s, q, " +") && MatchRange(s, q + 2) == Some(RangeMatch(newSide, e))
      && LiteralAt(s, e, " @@")
  {
    var o, n := oldSide.Text(), newSide.Text();
    HeaderPieces(s, i, o, n);
    assert MatchRange(s, i + 4) == Some(RangeMatch(oldSide, i + 4 + |o|)) by {
      MatchRangeText(s, i + 4, oldSide);
    }
    MatchRangeText(s, i + 4 + |o| + 2, newSide);
  }

  lemma MatchAtParts(s: string, i: nat, oldSide: RangeMatch, newSide: RangeMatch)
    requires LiteralAt(s, i, "@@ -") && MatchRange(s, i + 4) == Some(oldSide)
    requires LiteralAt(s, oldSide.end, " +") && MatchRange(s, oldSide.end + 2) == Some(newSide)
    requires LiteralAt(s, newSide.end, " @@")
    ensures MatchAt(s, i) == Some(HunkOf(newSide.side))
  {
  }

  /** What MatchRange captures at i is a well-formed side written at i, and the match ends after it. */
  lemma MatchRangeSound(s: string, i: nat)
    requires i <= |s| && MatchRange(s, i).Some?
    ensures var m := MatchRange(s, i).value;
      m.side.Valid() && LiteralAt(s, i, m.side.Text()) && m.end == i + |m.side.Text()|
  {
    var j := DigitsEnd(s, i);
    var k := if j < |s| && s[j] == ',' then j + 1 else j;
    var l := DigitsEnd(s, k);
    var r := MatchRange(s, i).value.side;
    DigitsEndDigits(s, i);
    DigitsEndDigits(s, k);
    if k == j {
      assert l == k;
    }
    assert r.Text() == s[i..l] by {
      if k > j {
        assert s[j..k] == ",";
      }
      assert s[i..l] == s[i..j] + s[j..k] + s[k..l];
    }
    LiteralSlice(s, i, l);
  }

  /** Whatever MatchAt accepts at i is header text at i, and it yields that header's new side. */
  lemma MatchAtSound(s: string, i: nat)
    requires i <= |s| && MatchAt(s, i).Some?
    ensures exists oldSide, newSide :: HeaderAt(s, i, oldSide, newSide) && MatchAt(s, i) == Some(HunkOf(newSide))
  {
    var q := MatchAtSteps(s, i);
    var o, n := HeaderOfSteps(s, i, q);
    assert HeaderAt(s, i, o, n) && MatchAt(s, i) == Some(HunkOf(n));
  }

  /** The steps of a successful MatchAt: q is where the old side ends. */
  lemma MatchAtSteps(s: string, i: nat) returns (q: nat)
    requires i <= |s| && MatchAt(s, i).Some?
    ensures LiteralAt(s, i, "@@ -") && MatchRange(s, i + 4).Some? && MatchRange(s, i + 4).value.end == q
    ensures LiteralAt(s, q, " +") && q + 2 <= |s| && MatchRange(s, q + 2).Some?
    ensures var m := MatchRange(s, q + 2).value;
      LiteralAt(s, m.end, " @@") && MatchAt(s, i) == Some(HunkOf(m.side))
  {
    q := MatchRange(s, i + 4).value.end;
  }

  /** The sides a successful MatchAt captures make header text at i. */
  lemma HeaderOfSteps(s: string, i: nat, q: nat) returns (oldSide: RangeText, newSide: RangeText)
    requires i + 4 <= |s| && LiteralAt(s, i, "@@ -") && MatchRange(s, i + 4).Some? && MatchRange(s, i + 4).value.end == q
    requires LiteralAt(s, q, " +") && q + 2 <= |s| && MatchRange(s, q + 2).Some?
    requires LiteralAt(s, MatchRange(s, q + 2).value.end, " @@")
    ensures HeaderAt(s, i, oldSide, newSide) && newSide == MatchRange(s, q + 2).value.side
  {
    oldSide := MatchRange(s, i + 4).value.side;
    newSide := MatchRange(s, q + 2).value.side;
    MatchRangeSound(s, i + 4);
    MatchRangeSound(s, q + 2);
    HeaderJoin(s, i, oldSide.Text(), q, newSide.Text(), MatchRange(s, q + 2).value.end);
  }

  /** The five pieces of a header, each where the pattern looks for it, make the header text. */
  lemma HeaderJoin(s: string, i: nat, o: string, q: nat, n: string, e: nat)
    requires LiteralAt(s, i, "@@ -") && LiteralAt(s, i + 4, o) && q == i + 4 + |o|
    requires LiteralAt(s, q, " +") && LiteralAt(s, q + 2, n) && e == q + 2 + |n|
    requires LiteralAt(s, e, " @@")
    ensures LiteralAt(s, i, "@@ -" + o + " +" + n + " @@")
  {
    LiteralJoin(s, i, "@@ -", o);
    LiteralJoin(s, i, "@@ -" + o, " +");
    LiteralJoin(s, i, "@@ -" + o + " +", n);
    LiteralJoin(s, i, "@@ -" + o + " +" + n, " @@");
  }

  /** MatchAt accepts exactly header text, and yields exactly what that text says. */
  lemma MatchAtSpec(s: string, i: nat, h: Hunk)
    requires i <= |s|
    ensures MatchAt(s, i) == Some(h) <==> HeaderFor(s, i, h)
    ensures MatchAt(s, i).Some? <==> HasHeaderAt(s, i)
  {
    if MatchAt(s, i).Some? {
      MatchAtSound(s, i);
    }
    if HasHeaderAt(s, i) {
      var o, n :| HeaderAt(s, i, o, n);
      MatchAtHeader(s, i, o, n);
    }
    if HeaderFor(s, i, h) {
      var o, n :| HeaderAt(s, i, o, n) && HunkOf(n) == h;
      MatchAtHeader(s, i, o, n);
    }
  }

  /**
   * The parse of a line is the header text that stands leftmost in it: it
   * yields h exactly when header text yielding h stands at some position
   * with no header text before it, and nothing exactly when the line holds
   * no header text at all.
   */
  lemma ParseHeaderSpec(line: string, h: Hunk)
    ensures ParseHeader(line) == Some(h) <==>
      exists i :: 0 <= i < |line| && HeaderFor(line, i, h) && forall k :: 0 <= k < i ==> !HasHeaderAt(line, k)
    ensures ParseHeader(line) == None <==> forall i :: 0 <= i < |line| ==> !HasHeaderAt(line, i)
  {
    if ParseHeader(line) == Some(h) {
      ParseHeaderFound(line, h);
    }
    if exists i :: 0 <= i < |line| && HeaderFor(line, i, h) && forall k :: 0 <= k < i ==> !HasHeaderAt(line, k) {
      var i :| 0 <= i < |line| && HeaderFor(line, i, h) && forall k :: 0 <= k < i ==> !HasHeaderAt(line, k);
      ParseHeaderAt(line, i, h);
    }
    ParseHeaderNone(line);
  }

  /** What the parse yields comes from header text with none before it. */
  lemma ParseHeaderFound(line: string, h: Hunk)
    requires ParseHeader(line) == Some(h)
    ensures exists i :: 0 <= i < |line| && HeaderFor(line, i, h) && forall k :: 0 <= k < i ==> !HasHeaderAt(line, k)
  {
    var ms := Matches(line);
    var i := LeftmostSome(ms, 0);
    assert MatchAt(line, i) == ms[i] == Some(h);
    MatchAtSpec(line, i, h);
    forall k | 0 <= k < i ensures !HasHeaderAt(line, k) {
      assert MatchAt(line, k) == ms[k];
      MatchAtSpec(line, k, h);
    }
  }

  /** The parse yields nothing exactly when no header text stands anywhere in the line. */
  lemma ParseHeaderNone(line: string)
    ensures ParseHeader(line) == None <==> forall i :: 0 <= i < |line| ==> !HasHeaderAt(line, i)
  {
    var ms := Matches(line);
    LeftmostNone(ms, 0);
    MatchesAreHeaders(line);
    assert NoneBetween(ms, 0, |ms|) <==> forall i :: 0 <= i < |line| ==> !HasHeaderAt(line, i) by {
      assert forall k :: 0 <= k < |line| ==> ms[k] == MatchAt(line, k);
    }
  }

  /** At every position, MatchAt succeeds exactly where header text stands. */
  lemma MatchesAreHeaders(line: string)
    ensures forall k :: 0 <= k <= |line| ==> (MatchAt(line, k).Some? <==> HasHeaderAt(line, k))
  {
    forall k | 0 <= k <= |line| ensures MatchAt(line, k).Some? <==> HasHeaderAt(line, k) {
      MatchAtSpec(line, k, Hunk(0, 0));
    }
  }

  /** Header text at i with none before it is what the parse yields. */
  lemma ParseHeaderAt(line: string, i: nat, h: Hunk)
    requires i < |line| && HeaderFor(line, i, h)
    requires forall k :: 0 <= k < i ==> !HasHeaderAt(line, k)
    ensures ParseHeader(line) == Some(h)
  {
    var ms := Matches(line);
    MatchesAreHeaders(line);
    MatchAtSpec(line, i, h);
    assert ms[i] == Some(h);
    assert NoneBetween(ms, 0, i) by {
      assert forall k :: 0 <= k < i ==> ms[k] == MatchAt(line, k);
    }
    LeftmostNone(ms, 0);
    var j := LeftmostSome(ms, 0);
    assert j == i;
  }

  /**
   * A header is found wherever it stands in a line: after any text free of
   * '@' and before any text at all. `@@ -a,b +s,c @@` yields (s, c) and
   * `@@ -a +s @@` yields (s, 1).
   */
  lemma {:induction false} ParseHeaderText(prefix: string, oldSide: RangeText, newSide: RangeText, rest: string)
    requires oldSide.Valid() && newSide.Valid()
    requires '@' !in prefix
    ensures ParseHeader(prefix + HeaderText(oldSide, newSide) + rest) == Some(HunkOf(newSide))
  {
    var h := HeaderText(oldSide, newSide);
    var s := prefix + h + rest;
    assert s[|prefix|..|prefix| + |h|] == h;
    LiteralSlice(s, |prefix|, |prefix| + |h|);
    assert s[..|prefix|] == prefix;
    MatchAtHeader(s, |prefix|, oldSide, newSide);
    SkipPrefix(s, Matches(s), prefix, 0);
  }

  lemma {:induction false} SkipPrefix(s: string, ms: seq<Option<Hunk>>, prefix: string, i: nat)
    requires ms == Matches(s)
    requires '@' !in prefix && i <= |prefix| < |s| && s[..|prefix|] == prefix
    ensures Leftmost(ms, i) == Leftmost(ms, |prefix|)
    decreases |prefix| - i
  {
    if i < |prefix| {
      assert s[..|prefix|][i] == s[i] != '@';
      assert !LiteralAt(s, i, "@@ -") by {
        assert "@@ -"[0] == '@';
      }
      assert ms[i] == MatchAt(s, i) == None;
      SkipPrefix(s, ms, prefix, i + 1);
    }
  }

  /** No `@@ -` anywhere in a line: no header. */
  lemma {:induction false} ParseHeaderNeedsMarker(line: string)
    requires forall i :: 0 <= i <= |line| ==> !LiteralAt(line, i, "@@ -")
    ensures ParseHeader(line) == None
  {
    NoMarkerFrom(line, Matches(line), 0);
  }

  lemma {:induction false} NoMarkerFrom(line: string, ms: seq<Option<Hunk>>, i: nat)
    requires ms == Matches(line) && i <= |line|
    requires forall k :: i <= k <= |line| ==> !LiteralAt(line, k, "@@ -")
    ensures Leftmost(ms, i) == None
    decreases |line| - i
  {
    if i < |line| {
      assert ms[i] == MatchAt(line, i) == None;
      NoMarkerFrom(line, ms, i + 1);
    }
  }
}
