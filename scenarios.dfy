/**
 * The model on small concrete inputs, with the answers the code gives.
 */
module Scenarios {
  import opened Wrappers
  import opened Seqs
  import opened Text
  import opened RubyHash
  import opened HunkHeader
  import opened GitGitter
  import opened Cop

  lemma ValueOfDigit(c: char)
    requires IsDigit(c)
    ensures Value([c]) == c as int - '0' as int
  {
    assert [c][..0] == [];
  }

  /** A line made of a header between other text parses as that header. */
  lemma HeaderLine(line: string, prefix: string, oldSide: RangeText, newSide: RangeText, rest: string)
    requires oldSide.Valid() && newSide.Valid() && '@' !in prefix
    requires line == prefix + HeaderText(oldSide, newSide) + rest
    ensures ParseHeader(line) == Some(HunkOf(newSide))
  {
    ParseHeaderText(prefix, oldSide, newSide, rest);
  }

  /** `@@ -1,2 +4,3 @@` gives (4, 3), which marks lines 4 to 7: four lines, not three. */
  lemma HeaderWithCounts()
    ensures ParseHeader("@@ -1,2 +4,3 @@") == Some(Hunk(4, 3))
    ensures Mask([Hunk(4, 3)]) == [4, 5, 6, 7]
  {
    assert ParseHeader("@@ -1,2 +4,3 @@") == Some(Hunk(4, 3)) by {
      var o, n := RangeText("1", true, "2"), RangeText("4", true, "3");
      assert HunkOf(n) == Hunk(4, 3) by {
        ValueOfDigit('4');
        ValueOfDigit('3');
      }
      assert "" + HeaderText(o, n) + "" == "@@ -1,2 +4,3 @@";
      HeaderLine("@@ -1,2 +4,3 @@", "", o, n, "");
    }
    assert Mask([Hunk(4, 3)]) == [4, 5, 6, 7] by {
      MaskOfHunk(Hunk(4, 3));
      assert Range(7, 7) == [7];
      assert Range(6, 7) == [6, 7];
      assert Range(5, 7) == [5, 6, 7];
    }
  }

  /** `@@ -1 +4 @@` gives (4, 1): a missing count is 1, and the mask is {4, 5}. */
  lemma HeaderWithoutCounts()
    ensures ParseHeader("@@ -1 +4 @@") == Some(Hunk(4, 1))
    ensures Mask([Hunk(4, 1)]) == [4, 5]
  {
    var o, n := RangeText("1", false, ""), RangeText("4", false, "");
    assert HunkOf(n) == Hunk(4, 1) by {
      ValueOfDigit('4');
    }
    assert "" + HeaderText(o, n) + "" == "@@ -1 +4 @@";
    HeaderLine("@@ -1 +4 @@", "", o, n, "");
    MaskOfHunk(Hunk(4, 1));
  }

  /** A pure deletion `@@ -1,2 +4,0 @@` gives (4, 0), which still marks line 4. */
  lemma HeaderOfDeletion()
    ensures ParseHeader("@@ -1,2 +4,0 @@") == Some(Hunk(4, 0))
    ensures Mask([Hunk(4, 0)]) == [4]
  {
    var o, n := RangeText("1", true, "2"), RangeText("4", true, "0");
    assert HunkOf(n) == Hunk(4, 0) by {
      ValueOfDigit('4');
      ValueOfDigit('0');
    }
    assert "" + HeaderText(o, n) + "" == "@@ -1,2 +4,0 @@";
    HeaderLine("@@ -1,2 +4,0 @@", "", o, n, "");
    MaskOfHunk(Hunk(4, 0));
  }

  /** A comma with no count after it is accepted, and the count is 1. */
  lemma HeaderWithTrailingComma()
    ensures ParseHeader("@@ -3, +8, @@") == Some(Hunk(8, 1))
  {
    var o, n := RangeText("3", true, ""), RangeText("8", true, "");
    assert HunkOf(n) == Hunk(8, 1) by {
      ValueOfDigit('8');
    }
    assert "" + HeaderText(o, n) + "" == "@@ -3, +8, @@";
    HeaderLine("@@ -3, +8, @@", "", o, n, "");
  }

  /** An added line that merely contains header text is taken for a header. */
  lemma HeaderInsideAddedLine()
    ensures ParseHeader("+s = '@@ -1 +2 @@'\n") == Some(Hunk(2, 1))
  {
    var o, n := RangeText("1", false, ""), RangeText("2", false, "");
    assert HunkOf(n) == Hunk(2, 1) by {
      ValueOfDigit('2');
    }
    assert "+s = '" + HeaderText(o, n) + "'\n" == "+s = '@@ -1 +2 @@'\n";
    HeaderLine("+s = '@@ -1 +2 @@'\n", "+s = '", o, n, "'\n");
  }

  /** Hunks at 4 (+1), 6 (+4) and 12 (+1) mark lines 4-5, 6-10 and 12-13. */
  lemma ThreeHunkMask()
    ensures Mask([Hunk(4, 1), Hunk(6, 4), Hunk(12, 1)]) == [4, 5, 6, 7, 8, 9, 10, 12, 13]
  {
  }

  /**
   * With that mask an offense on line 6 is kept, one on line 1 is buried,
   * and one in a file the diff map lacks is kept.
   */
  lemma ThreeHunkOffenses()
    ensures var d := [Entry("/app/user.rb", [Hunk(12, 1), Hunk(6, 4), Hunk(4, 1)])];
      && !Buried(ChangesOf(d), Offense("/app/user.rb", 6, 6))
      && Buried(ChangesOf(d), Offense("/app/user.rb", 1, 1))
      && !Buried(ChangesOf(d), Offense("/app/other.rb", 1, 1))
  {
    var hunks := [Hunk(12, 1), Hunk(6, 4), Hunk(4, 1)];
    var d := [Entry("/app/user.rb", hunks)];
    assert Keys(d) == ["/app/user.rb"];
    assert Valid(d);
    assert Get(d, "/app/user.rb") == Some(hunks);
    BuriedSpec(d, Offense("/app/user.rb", 6, 6));
    assert Covers(hunks[1], 6) && Touched(hunks, 6);
    BuriedSpec(d, Offense("/app/user.rb", 1, 1));
    BuriedSpec(d, Offense("/app/other.rb", 1, 1));
  }

  /**
   * Monotonicity needs the file to be in the diff map already: an offense
   * on line 1 of a file the map lacks is kept, and once that file gets the
   * hunk (10, 0) the same offense is buried.
   */
  lemma NewFileBuries()
    ensures var o := Offense("/app/new.rb", 1, 1);
      && !Buried(ChangesOf([]), o)
      && Buried(ChangesOf(Put([], "/app/new.rb", [Hunk(10, 0)])), o)
  {
    var o := Offense("/app/new.rb", 1, 1);
    var d: DiffInfo := Put([], "/app/new.rb", [Hunk(10, 0)]);
    assert d == [Entry("/app/new.rb", [Hunk(10, 0)])];
    assert Valid(d);
    BuriedSpec([], o);
    BuriedSpec(d, o);
    MaskOfHunk(Hunk(10, 0));
  }

  /** Leading zeros are read by `to_i`: `@@ -01 +007,02 @@` gives (7, 2). */
  lemma HeaderWithLeadingZeros()
    ensures ParseHeader("@@ -01 +007,02 @@") == Some(Hunk(7, 2))
  {
    var o, n := RangeText("01", false, ""), RangeText("007", true, "02");
    assert HunkOf(n) == Hunk(7, 2) by {
      assert "007"[..2] == "00" && "00"[..1] == "0";
      assert "02"[..1] == "0";
      ValueOfDigit('0');
    }
    assert "" + HeaderText(o, n) + "" == "@@ -01 +007,02 @@";
    HeaderLine("@@ -01 +007,02 @@", "", o, n, "");
  }

  /** A header cut short yields nothing: `@@ -1 +2 @` is not a header. */
  lemma TruncatedHeader()
    ensures ParseHeader("@@ -1 +2 @") == None
  {
    var s := "@@ -1 +2 @";
    MatchStartOnly(s, 4, "1");
    MatchStartOnly(s, 7, "2");
    var ms := Matches(s);
    assert ms[0] == MatchAt(s, 0) == None;
    forall k | 1 <= k <= |s| ensures !LiteralAt(s, k, "@@ -") {
      assert "@@ -"[1] == '@';
    }
    NoMarkerFrom(s, ms, 1);
  }

  /** Without arguments: changed files [company, user, project] and whitelist [app, company, user] give [company, user]. */
  lemma SelectionByWhitelist()
    ensures Selection(["company", "user", "project"], ["app", "company", "user"], []) == ["company", "user"]
  {
    var changed: seq<string> := ["company", "user", "project"];
    var whitelisted: seq<string> := ["app", "company", "user"];
    assert changed[..2][..1][..0] == [];
    assert Intersect(changed[..2][..1], whitelisted) == ["company"];
    assert Intersect(changed[..2], whitelisted) == ["company", "user"];
    assert "project" !in whitelisted;
  }

  /** Explicit arguments win over the diff and the whitelist. */
  lemma SelectionByArguments(keys: seq<string>, whitelisted: seq<string>)
    ensures Selection(keys, whitelisted, ["a.rb", "b.rb"]) == ["a.rb", "b.rb"]
  {
  }
}
