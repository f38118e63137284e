/**
 * DirtyCop: from the diff map to the two answers the linter asks for:
 * which files to inspect, and whether an offense should be buried
 * (dropped) because it lies on no changed line.
 */
module Cop {
  import opened Wrappers
  import opened Seqs
  import opened RubyHash
  import opened HunkHeader
  import opened GitGitter

  /** Changed file => the line numbers its hunks mark (its mask). */
  type Changes = Hash<string, seq<int>>

  /** The lines one hunk marks: `Array(start .. start + count)`, BOTH ends included. */
  function HunkLines(h: Hunk): seq<int> {
    Range(h.start, h.start + h.count)
  }

  /** The hunk marks line n. */
  predicate Covers(h: Hunk, n: int) {
    h.start <= n <= h.start + h.count
  }

  /** Some hunk of the list marks line n. */
  predicate Touched(hunks: seq<Hunk>, n: int) {
    exists k :: 0 <= k < |hunks| && Covers(hunks[k], n)
  }

  /** A file's mask: `hunks.collect { |s, c| Array(s .. s + c) }.flatten`. */
  function Mask(hunks: seq<Hunk>): seq<int> {
    if hunks == [] then [] else HunkLines(hunks[0]) + Mask(hunks[1..])
  }

  /** The mask holds n exactly when some hunk (s, c) has s <= n <= s + c. */
  lemma {:induction false} MaskContains(hunks: seq<Hunk>, n: int)
    ensures n in Mask(hunks) <==> Touched(hunks, n)
  {
    if hunks != [] {
      MaskContains(hunks[1..], n);
      if Touched(hunks[1..], n) {
        var k :| 0 <= k < |hunks[1..]| && Covers(hunks[1..][k], n);
        assert Covers(hunks[k + 1], n);
      }
      if Touched(hunks, n) && !Covers(hunks[0], n) {
        var k :| 0 <= k < |hunks| && Covers(hunks[k], n);
        assert Covers(hunks[1..][k - 1], n);
      }
    }
  }

  /** Each hunk contributes count + 1 numbers, its start among them even when count is 0. */
  lemma MaskOfHunk(h: Hunk)
    ensures Mask([h]) == HunkLines(h)
    ensures |Mask([h])| == h.count + 1
    ensures h.start in Mask([h]) && h.start + h.count in Mask([h])
  {
    assert [h][1..] == [];
  }

  /** Every hunk's start is in the mask, so a file with hunks never has an empty mask. */
  lemma MaskHasStarts(hunks: seq<Hunk>)
    ensures forall k :: 0 <= k < |hunks| ==> hunks[k].start in Mask(hunks)
    ensures hunks != [] ==> Mask(hunks) != []
  {
    forall k | 0 <= k < |hunks| ensures hunks[k].start in Mask(hunks) {
      assert Covers(hunks[k], hunks[k].start);
      MaskContains(hunks, hunks[k].start);
    }
  }

  lemma {:induction false} MaskAppend(a: seq<Hunk>, b: seq<Hunk>)
    ensures Mask(a + b) == Mask(a) + Mask(b)
  {
    if a == [] {
      assert a + b == b;
    } else {
      assert (a + b)[1..] == a[1..] + b;
      MaskAppend(a[1..], b);
    }
  }

  /** `DirtyCop#changed_files_and_lines`: each file of the diff map with its mask. */
  function ChangesOf(d: DiffInfo): Changes {
    FromPairs(MapValues(Mask, d))
  }

  /** The same files, in the same order, each with the mask of its own hunks. */
  lemma ChangesOfSpec(d: DiffInfo, f: string)
    requires Valid(d)
    ensures Keys(ChangesOf(d)) == Keys(d)
    ensures Get(ChangesOf(d), f) == if f in Keys(d) then Some(Mask(Get(d, f).value)) else None
  {
    MapValuesGet(Mask, d, f);
    FromPairsOfHash(MapValues(Mask, d));
  }

  /** A reported offense, reduced to its file and its first and last line. */
  datatype Offense = Offense(file: string, firstLine: int, lastLine: int)

  /** `DirtyCop#bury_evidence?`. */
  function Buried(changes: Changes, o: Offense): bool {
    match Get(changes, o.file)
    case None => false  // `nil & lines` is false, and so is `false && ...`
    case Some(mask) => Intersect(mask, Range(o.firstLine, o.lastLine)) == []
  }

  /**
   * An offense is buried exactly when its file is in the diff map and no
   * hunk of that file marks any of its lines. An offense in a file the map
   * does not hold is never buried, so it is kept.
   */
  lemma BuriedSpec(d: DiffInfo, o: Offense)
    requires Valid(d)
    ensures Buried(ChangesOf(d), o) <==>
      o.file in Keys(d) &&
      forall n :: o.firstLine <= n <= o.lastLine ==> !Touched(Get(d, o.file).value, n)
  {
    ChangesOfSpec(d, o.file);
    if o.file in Keys(d) {
      var hunks := Get(d, o.file).value;
      var r := Intersect(Mask(hunks), Range(o.firstLine, o.lastLine));
      if r != [] {
        assert r[0] in r;
        MaskContains(hunks, r[0]);
      }
      forall n | o.firstLine <= n <= o.lastLine && Touched(hunks, n) ensures n in r {
        MaskContains(hunks, n);
      }
    }
  }

  /** An offense whose last line comes before its first is buried whenever its file changed. */
  lemma BuriedEmptyRange(d: DiffInfo, o: Offense)
    requires Valid(d) && o.file in Keys(d) && o.firstLine > o.lastLine
    ensures Buried(ChangesOf(d), o)
  {
    BuriedSpec(d, o);
  }

  /**
   * More hunks for a file can only un-bury offenses: when a file that is in
   * the diff map gets a hunk list holding all its old hunks (in any order,
   * with others before, between or after them), an offense buried under the
   * new map was buried under the old one.
   */
  lemma BuriedMonotonic(d: DiffInfo, f: string, hunks': seq<Hunk>, o: Offense)
    requires Valid(d) && f in Keys(d)
    requires forall h :: h in Get(d, f).value ==> h in hunks'
    ensures Buried(ChangesOf(Put(d, f, hunks')), o) ==> Buried(ChangesOf(d), o)
  {
    var hunks := Get(d, f).value;
    var d' := Put(d, f, hunks');
    PutKeys(d, f, hunks');
    PutGet(d, f, hunks', o.file);
    BuriedSpec(d, o);
    BuriedSpec(d', o);
    if o.file == f {
      forall n | Touched(hunks, n) ensures Touched(hunks', n) {
        var k :| 0 <= k < |hunks| && Covers(hunks[k], n);
        assert hunks[k] in hunks;
        var k' :| 0 <= k' < |hunks'| && hunks'[k'] == hunks[k];
        assert Covers(hunks'[k'], n);
      }
    }
  }

  /** What `files_to_inspect` answers on its first call. */
  function Selection(keys: seq<string>, whitelisted: seq<string>, args: seq<string>): seq<string> {
    if args != [] then args else Intersect(keys, whitelisted)
  }

  /**
   * Explicit arguments are returned as they are. Without them the answer is
   * the changed files that are also whitelisted, once each, in diff-map order.
   */
  lemma SelectionSpec(keys: seq<string>, whitelisted: seq<string>, args: seq<string>)
    ensures args != [] ==> Selection(keys, whitelisted, args) == args
    ensures args == [] ==>
      var r := Selection(keys, whitelisted, args);
      && (forall x :: x in r <==> x in keys && x in whitelisted)
      && Distinct(r)
      && forall i, j :: 0 <= i < j < |r| ==> IndexOf(keys, r[i]) < IndexOf(keys, r[j])
  {
    IntersectOrder(keys, whitelisted);
  }

  /** The object the linter hooks create: a diff map and two memo fields. */
  class DirtyCop {
    const diffInfo: DiffInfo
    var changes: Option<Changes>     // @changes
    var files: Option<seq<string>>   // @files

    /** @changes, once set, is the mask map of the diff map. */
    ghost predicate Valid()
      reads this
    {
      RubyHash.Valid(diffInfo) && (changes.Some? ==> changes.value == ChangesOf(diffInfo))
    }

    constructor (diffInfo: DiffInfo)
      requires RubyHash.Valid(diffInfo)
      ensures Valid()
      ensures this.diffInfo == diffInfo && changes == None && files == None
    {
      this.diffInfo := diffInfo;
      changes := None;
      files := None;
    }

    /** `changed_files_and_lines`: computed on the first call, then returned as stored. */
    method ChangedFilesAndLines() returns (r: Changes)
      requires Valid()
      modifies this`changes
      ensures Valid()
      ensures r == ChangesOf(diffInfo) && changes == Some(r)
      ensures old(changes).Some? ==> changes == old(changes)
    {
      if changes.None? {
        changes := Some(ChangesOf(diffInfo));
      }
      r := changes.value;
    }

    /** `bury_evidence?`: true when the offense should be dropped. */
    method BuryEvidence(o: Offense) returns (b: bool)
      requires Valid()
      modifies this`changes
      ensures Valid() && changes == Some(ChangesOf(diffInfo))
      ensures b == Buried(ChangesOf(diffInfo), o)
    {
      var c := ChangedFilesAndLines();
      b := Buried(c, o);
    }

    /**
     * `files_to_inspect`: the first call decides and stores the answer;
     * every later call returns it, whatever its arguments.
     */
    method FilesToInspect(whitelisted: seq<string>, args: seq<string>) returns (r: seq<string>)
      modifies this`files
      ensures old(files).Some? ==> files == old(files) && r == old(files).value
      ensures old(files).None? ==> files == Some(r) && r == Selection(Keys(diffInfo), whitelisted, args)
    {
      if files.None? && args != [] {
        files := Some(args);
      }
      if files.None? {
        files := Some(Intersect(Keys(diffInfo), whitelisted));
      }
      r := files.value;
    }
  }
}
