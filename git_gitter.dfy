/**
 * GitGitter: what changed, read from git's output. The two git commands
 * are not run here; their standard output is an input: `nameOnly` is the
 * output of `git diff --diff-filter=AM --name-only HEAD`, and `diffOf(f)`
 * the output of `git diff -p -U0 HEAD f`. `absolutePath` stands for
 * `File.absolute_path`, which depends on the process's working directory.
 */
module GitGitter {
  import opened Wrappers
  import opened Seqs
  import opened Text
  import opened RubyHash
  import opened HunkHeader

  /** Changed file => its hunks, newest-in-file first. */
  type DiffInfo = Hash<string, seq<Hunk>>

  /** The pattern `/\.rb$/`: ".rb" right before the end of the string or before a "\n". */
  predicate IsRubyFile(x: string) {
    exists p | 0 <= p <= |x| - 3 :: RbAt(x, p)
  }

  predicate RbAt(x: string, p: nat)
    requires p + 3 <= |x|
  {
    x[p..p + 3] == ".rb" && (p + 3 == |x| || x[p + 3] == '\n')
  }

  predicate EndsWithRb(x: string) {
    EndsWith(x, ".rb")
  }

  /** On a single line, `/\.rb$/` is "ends in .rb". */
  lemma RubyFileOfLine(x: string)
    requires '\n' !in x
    ensures IsRubyFile(x) <==> EndsWithRb(x)
  {
    if IsRubyFile(x) {
      var p :| 0 <= p <= |x| - 3 && RbAt(x, p);
      assert p + 3 == |x|;
    }
    if EndsWithRb(x) {
      assert RbAt(x, |x| - 3);
    }
  }

  /** The listed lines, chomped, that name Ruby files (before absolutising). */
  function RubyFiles(nameOnly: string): seq<string> {
    Filter(IsRubyFile, Map(Chomp, Lines(nameOnly)))
  }

  /** `GitGitter#changed_filenames`. */
  function ChangedFilenames(nameOnly: string, absolutePath: string -> string): (r: seq<string>)
    ensures |r| == |RubyFiles(nameOnly)| <= |Lines(nameOnly)|
  {
    Map(absolutePath, RubyFiles(nameOnly))
  }

  /** Exactly the chomped lines that end in ".rb" are kept, and nothing is added. */
  lemma RubyFilesMembers(nameOnly: string, x: string)
    ensures x in RubyFiles(nameOnly) <==>
      EndsWithRb(x) && exists i :: 0 <= i < |Lines(nameOnly)| && Chomp(Lines(nameOnly)[i]) == x
  {
    var ls := Lines(nameOnly);
    var cs := Map(Chomp, ls);
    LinesWellFormed(nameOnly);
    if exists i :: 0 <= i < |ls| && Chomp(ls[i]) == x {
      var i :| 0 <= i < |ls| && Chomp(ls[i]) == x;
      assert cs[i] == x;
      ChompedLine(ls[i]);
      RubyFileOfLine(x);
      assert x in RubyFiles(nameOnly) <==> EndsWithRb(x);
      assert exists i :: 0 <= i < |Lines(nameOnly)| && Chomp(Lines(nameOnly)[i]) == x;
    } else {
      assert x !in cs;
    }
  }

  /** Output order is kept: the files listed first come first. */
  lemma RubyFilesAppend(a: string, b: string)
    requires a == [] || a[|a| - 1] == '\n'
    ensures RubyFiles(a + b) == RubyFiles(a) + RubyFiles(b)
  {
    LinesAppend(a, b);
    MapAppend(Chomp, Lines(a), Lines(b));
    FilterAppend(IsRubyFile, Map(Chomp, Lines(a)), Map(Chomp, Lines(b)));
  }

  /** The text git prints for a list of names: each on its own line. */
  function Listing(names: seq<string>): string {
    if names == [] then [] else names[0] + "\n" + Listing(names[1..])
  }

  /** One listed name reads back as itself when it ends in ".rb", as nothing otherwise. */
  lemma RubyFilesOfName(x: string)
    requires '\n' !in x && !EndsWith(x, "\r")
    ensures RubyFiles(x + "\n") == Filter(EndsWithRb, [x])
  {
    var line := x + "\n";
    assert WellFormedLines([line]);
    assert Concat([line]) == line;
    ConcatLines([line]);
    ChompNewline(x);
    assert Map(Chomp, Lines(line)) == [x];
    RubyFileOfLine(x);
  }

  /**
   * Reading a listing back gives exactly its names that end in ".rb", in
   * listing order (for names without line breaks and not ending in "\r").
   */
  lemma {:induction false} RubyFilesOfListing(names: seq<string>)
    requires forall i :: 0 <= i < |names| ==> '\n' !in names[i] && !EndsWith(names[i], "\r")
    ensures RubyFiles(Listing(names)) == Filter(EndsWithRb, names)
  {
    if names != [] {
      var x := names[0];
      assert Listing(names) == (x + "\n") + Listing(names[1..]);
      RubyFilesAppend(x + "\n", Listing(names[1..]));
      RubyFilesOfName(x);
      RubyFilesOfListing(names[1..]);
      assert names == [x] + names[1..];
      FilterAppend(EndsWithRb, [x], names[1..]);
    }
  }

  // ---- GitGitter#line_change_info ----

  predicate IsHeader(line: string) {
    ParseHeader(line).Some?
  }

  /** The hunks one line contributes: its header's, or none. */
  function HeaderOf(line: string): seq<Hunk> {
    match ParseHeader(line)
    case Some(h) => [h]
    case None => []
  }

  /** `grep` with the header pattern and a block: the lines' hunks, in line order. */
  function Headers(ls: seq<string>): seq<Hunk> {
    if ls == [] then [] else HeaderOf(ls[0]) + Headers(ls[1..])
  }

  /** One hunk per line that holds a header, and every hunk is some line's header. */
  lemma {:induction false} HeadersSpec(ls: seq<string>)
    ensures |Headers(ls)| == |Filter(IsHeader, ls)|
    ensures forall h :: h in Headers(ls) ==> exists k :: 0 <= k < |ls| && ParseHeader(ls[k]) == Some(h)
  {
    if ls != [] {
      HeadersSpec(ls[1..]);
      forall h | h in Headers(ls[1..]) ensures exists k :: 0 <= k < |ls| && ParseHeader(ls[k]) == Some(h) {
        var k :| 0 <= k < |ls[1..]| && ParseHeader(ls[1..][k]) == Some(h);
        assert ParseHeader(ls[k + 1]) == Some(h);
      }
    }
  }

  lemma {:induction false} HeadersAppend(a: seq<string>, b: seq<string>)
    ensures Headers(a + b) == Headers(a) + Headers(b)
  {
    if a == [] {
      assert a + b == b;
    } else {
      assert (a + b)[0] == a[0];
      assert (a + b)[1..] == a[1..] + b;
      HeadersAppend(a[1..], b);
    }
  }

  /** `GitGitter#line_change_info`: the headers' new sides, last header first. */
  function LineChangeInfo(diff: string): seq<Hunk> {
    Reverse(Headers(Lines(diff)))
  }

  /** A diff of a single line yields that line's header, or nothing when it is not one. */
  lemma LineChangeInfoOfLine(line: string)
    requires IsLine(line)
    ensures LineChangeInfo(line) == HeaderOf(line)
  {
    assert WellFormedLines([line]);
    assert Concat([line]) == line;
    ConcatLines([line]);
    assert Headers([line]) == HeaderOf(line) + Headers([]);
  }

  /** Hunks later in the diff come first: appending text puts its hunks in front. */
  lemma LineChangeInfoAppend(a: string, b: string)
    requires a == [] || a[|a| - 1] == '\n'
    ensures LineChangeInfo(a + b) == LineChangeInfo(b) + LineChangeInfo(a)
  {
    LinesAppend(a, b);
    HeadersAppend(Lines(a), Lines(b));
    ReverseAppend(Headers(Lines(a)), Headers(Lines(b)));
  }

  // ---- GitGitter#initialize ----

  /** `@diff_info`: each changed file with its hunks. */
  function DiffInfoOf(nameOnly: string, absolutePath: string -> string, diffOf: string -> string): DiffInfo {
    FromPairs(Map(f => Entry(f, LineChangeInfo(diffOf(f))), ChangedFilenames(nameOnly, absolutePath)))
  }

  /**
   * The diff map has the changed files as keys, once each, in listing
   * order, and maps each to the hunks of its own diff.
   */
  lemma DiffInfoOfSpec(nameOnly: string, absolutePath: string -> string, diffOf: string -> string, f: string)
    ensures Valid(DiffInfoOf(nameOnly, absolutePath, diffOf))
    ensures var files := ChangedFilenames(nameOnly, absolutePath);
      Keys(DiffInfoOf(nameOnly, absolutePath, diffOf)) == Intersect(files, files)
    ensures Get(DiffInfoOf(nameOnly, absolutePath, diffOf), f) ==
      if f in ChangedFilenames(nameOnly, absolutePath) then Some(LineChangeInfo(diffOf(f))) else None
  {
    var files := ChangedFilenames(nameOnly, absolutePath);
    var ps := Map(f => Entry(f, LineChangeInfo(diffOf(f))), files);
    assert Keys(ps) == files;
    FromPairsKeys(ps);
    FromPairsGet(ps, f => LineChangeInfo(diffOf(f)), f);
  }
}
