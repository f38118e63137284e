/**
 * Ruby's line handling on strings: `String#lines`/`each_line` (split just
 * after every "\n", each piece keeping its newline) and `String#chomp`
 * (drop one trailing "\r\n", "\n" or "\r").
 */
module Text {

  predicate EndsWith(s: string, suffix: string) {
    |suffix| <= |s| && s[|s| - |suffix|..] == suffix
  }

  /** A piece `lines` can produce: non-empty, with a "\n" at most at its very end. */
  predicate IsLine(l: string) {
    l != [] && forall k :: 0 <= k < |l| - 1 ==> l[k] != '\n'
  }

  /** Length of the first line of s, its "\n" included when it has one. */
  function FirstLineLength(s: string): (n: nat)
    requires s != []
    ensures 0 < n <= |s|
    ensures n < |s| ==> s[n - 1] == '\n'
  {
    if s[0] == '\n' || |s| == 1 then 1 else 1 + FirstLineLength(s[1..])
  }

  /** The first line holds no "\n" before its end. */
  lemma {:induction false} FirstLineIsLine(s: string)
    requires s != []
    ensures IsLine(s[..FirstLineLength(s)])
    decreases |s|
  {
    if s[0] != '\n' && |s| > 1 {
      FirstLineIsLine(s[1..]);
      var n := FirstLineLength(s);
      assert s[..n] == [s[0]] + s[1..][..n - 1];
    }
  }

  /** Ruby's `s.lines` (and `s.each_line`). */
  function Lines(s: string): (ls: seq<string>)
    decreases |s|
  {
    if s == [] then [] else [s[..FirstLineLength(s)]] + Lines(s[FirstLineLength(s)..])
  }

  /** The text a list of lines was cut from. */
  function Concat(ls: seq<string>): string {
    if ls == [] then [] else ls[0] + Concat(ls[1..])
  }

  /** A sequence `lines` can return: every piece a line, all but the last ending in "\n". */
  predicate WellFormedLines(ls: seq<string>) {
    forall i :: 0 <= i < |ls| ==> IsLine(ls[i]) && (i < |ls| - 1 ==> EndsWith(ls[i], "\n"))
  }

  /** Splitting into lines loses nothing: the lines put back together give the text. */
  lemma {:induction false} LinesConcat(s: string)
    ensures Concat(Lines(s)) == s
    decreases |s|
  {
    if s != [] {
      var n := FirstLineLength(s);
      var ls := Lines(s);
      assert ls == [s[..n]] + Lines(s[n..]);
      assert ls[0] == s[..n] && ls[1..] == Lines(s[n..]);
      LinesConcat(s[n..]);
      assert Concat(ls) == s[..n] + Concat(ls[1..]);
      assert s == s[..n] + s[n..];
    }
  }

  /** Every piece is a line, and only the last may lack its "\n". */
  lemma {:induction false} LinesWellFormed(s: string)
    ensures WellFormedLines(Lines(s))
    decreases |s|
  {
    if s != [] {
      var n := FirstLineLength(s);
      FirstLineIsLine(s);
      LinesWellFormed(s[n..]);
      if n < |s| {
        assert s[n..] != [];
        assert Lines(s[n..]) != [];
        assert EndsWith(s[..n], "\n");
      }
    }
  }

  lemma FirstLineOfConcat(l: string, t: string)
    requires IsLine(l) && (EndsWith(l, "\n") || t == [])
    ensures FirstLineLength(l + t) == |l|
    decreases |l|
  {
    if 1 < |l| {
      assert (l + t)[1..] == l[1..] + t;
      FirstLineOfConcat(l[1..], t);
    }
  }

  /** The other half of the round trip: text built from well-formed lines splits back into them. */
  lemma {:induction false} ConcatLines(ls: seq<string>)
    requires WellFormedLines(ls)
    ensures Lines(Concat(ls)) == ls
  {
    if ls != [] {
      var rest := Concat(ls[1..]);
      assert WellFormedLines(ls[1..]) by {
        forall i | 0 <= i < |ls[1..]|
          ensures IsLine(ls[1..][i]) && (i < |ls[1..]| - 1 ==> EndsWith(ls[1..][i], "\n"))
        {
          assert ls[1..][i] == ls[i + 1];
        }
      }
      ConcatLines(ls[1..]);
      if |ls| == 1 {
        assert rest == [];
      }
      FirstLineOfConcat(ls[0], rest);
      var s := ls[0] + rest;
      assert s[..|ls[0]|] == ls[0] && s[|ls[0]|..] == rest;
    }
  }

  lemma FirstLineOfAppend(a: string, b: string)
    requires a != [] && a[|a| - 1] == '\n'
    ensures FirstLineLength(a + b) == FirstLineLength(a)
    decreases |a|
  {
    if a[0] != '\n' {
      assert (a + b)[1..] == a[1..] + b;
      FirstLineOfAppend(a[1..], b);
    }
  }

  /** Text after a line break does not change the first line. */
  lemma LinesOfAppend(a: string, b: string)
    requires a != [] && a[|a| - 1] == '\n'
    ensures var n := FirstLineLength(a);
      Lines(a + b) == [a[..n]] + Lines(a[n..] + b)
  {
    var n := FirstLineLength(a);
    FirstLineOfAppend(a, b);
    assert (a + b)[..n] == a[..n];
    assert (a + b)[n..] == a[n..] + b;
  }

  /** Lines of a text that stops at a line break are the lines of each part, in order. */
  lemma {:induction false} LinesAppend(a: string, b: string)
    requires a == [] || a[|a| - 1] == '\n'
    ensures Lines(a + b) == Lines(a) + Lines(b)
    decreases |a|
  {
    if a == [] {
      assert a + b == b;
    } else {
      var n := FirstLineLength(a);
      var x, r := a[..n], a[n..];
      LinesAppend(r, b);
      LinesOfAppend(a, b);
      assert Lines(a) == [x] + Lines(r);
      assert [x] + (Lines(r) + Lines(b)) == [x] + Lines(r) + Lines(b);
    }
  }

  /** Ruby's `chomp` with the default separator. */
  function Chomp(l: string): (r: string)
    ensures |l| - 2 <= |r| <= |l| && r == l[..|r|]
  {
    if EndsWith(l, "\r\n") then l[..|l| - 2]
    else if EndsWith(l, "\n") || EndsWith(l, "\r") then l[..|l| - 1]
    else l
  }

  lemma EndsWithLast(l: string, c: char)
    ensures EndsWith(l, [c]) <==> l != [] && l[|l| - 1] == c
  {
    if l != [] {
      assert l[|l| - 1..] == [l[|l| - 1]];
    }
  }

  /** A line that `lines` produced has no "\n" left once chomped. */
  lemma ChompedLine(l: string)
    requires IsLine(l)
    ensures '\n' !in Chomp(l)
  {
    var r := Chomp(l);
    assert EndsWith(l, "\n") ==> |r| < |l|;
    EndsWithLast(l, '\n');
    forall k | 0 <= k < |r| ensures r[k] != '\n' {
      assert r[k] == l[k];
    }
  }

  /** Chomping "name\n" gives the name back, unless it itself ends in "\r". */
  lemma ChompNewline(x: string)
    requires !EndsWith(x, "\r")
    ensures Chomp(x + "\n") == x
  {
    var l := x + "\n";
    assert l[..|l| - 1] == x;
  }
}
