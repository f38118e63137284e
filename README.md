# dirtycop, modelled in Dafny

dirtycop makes RuboCop report only offenses in code that changed since
`HEAD`. It does this in two steps:

- `GitGitter` (lib/dirty/cop.rb) asks git which Ruby files were added or
  modified. It reads the unified diff of each of those files. From the
  hunk headers it builds a diff map: each changed file is mapped to a
  list of `(start, count)` pairs, one per hunk, taken from the new-file
  side and listed last hunk first.
- `DirtyCop` turns the diff map into a mask for each file. The mask is the
  list of line numbers its hunks mark. `DirtyCop` then answers two
  questions for RuboCop:
  - which files to inspect;
  - whether an offense should be buried (dropped) because none of its
    lines is in the mask.

The model has eight modules:

- `Wrappers`: an `Option` type.
- `Seqs`: the Ruby `Array` operations the code uses. These are `map`,
  `grep` as a filter, `reverse`, `Array(a..b)` and `&`. Ruby's `&` keeps
  the receiver's order and drops duplicates.
- `Text`: `String#lines` and `String#chomp`.
- `RubyHash`: an insertion-ordered hash with `Hash[pairs]`, where the last
  pair wins.
- `HunkHeader`: the hunk-header regular expression, as a recogniser.
- `GitGitter`: `changed_filenames`, `line_change_info` and the diff map.
- `Cop`: the masks, `bury_evidence?`, `files_to_inspect`, and the
  `DirtyCop` class with its two memo fields `@changes` and `@files`.
- `Scenarios`: concrete instances.

The model follows the code, including where the code does something other
than what its test file (spec/dirty/cop_spec.rb) or a first reading of its
purpose would suggest:

- A hunk `(s, c)` marks `Array(s .. s + c)`, which is lines `s` to `s + c`
  with both ends included. That is `c + 1` lines, so a deletion hunk with
  `c = 0` still marks `s`. The test file spec/dirty/cop_spec.rb:10-16
  exercises a `mask_array` method that lib/dirty/cop.rb no longer has. It
  expects `[4, 6, 7, 8, 9, 12]` from the diff in the fixture file
  spec/git_diff (cop_spec.rb:12). That fixture is not part of this model,
  so the hunks behind the expectation are not known. For illustration,
  `Scenarios.ThreeHunkMask` shows that hunks `(4,1) (6,4) (12,1)` give the
  mask `[4, 5, 6, 7, 8, 9, 10, 12, 13]`.
- An offense in a file that is not in the diff map is KEPT. The reason is
  that `nil & lines` is `false`, so `bury_evidence?` answers `false`.
- The header pattern is unanchored, so header text anywhere in a diff
  line is taken for a hunk header, even inside an added line
  (`Scenarios.HeaderInsideAddedLine`).

## Model

| member | source | states |
|---|---|---|
| Text.Lines | lib/dirty/cop.rb:36 | `String#lines`; specified by `LinesConcat`, `ConcatLines`, `LinesWellFormed` and `LinesAppend` below |
| Text.LinesConcat | lib/dirty/cop.rb:36 | joining the pieces `lines` returns gives back the text |
| Text.LinesWellFormed | lib/dirty/cop.rb:36 | every piece is a non-empty line, and every piece but the last ends in "\n" |
| Text.ConcatLines | lib/dirty/cop.rb:36 | well-formed lines, joined and split again, are the same lines |
| Text.LinesAppend | lib/dirty/cop.rb:36 | the lines of `a + b` are those of `a` followed by those of `b`, when `a` ends at a line break |
| Text.Chomp | lib/dirty/cop.rb:37 | `chomp` removes at most two characters, and only from the end |
| Text.ChompedLine | lib/dirty/cop.rb:36-37 | a line from `lines`, once chomped, holds no "\n" |
| Text.ChompNewline | lib/dirty/cop.rb:37 | chomping `name + "\n"` gives `name` back, unless `name` ends in "\r" |
| GitGitter.RubyFileOfLine | lib/dirty/cop.rb:38 | on a line without "\n", `/\.rb$/` matches exactly when the line ends in ".rb" |
| GitGitter.RubyFiles | lib/dirty/cop.rb:35-38 | the names in git's listing, chomped, that `/\.rb$/` matches; specified by `RubyFilesMembers`, `RubyFilesAppend` and `RubyFilesOfListing` |
| GitGitter.ChangedFilenames | lib/dirty/cop.rb:34-40 | one absolute path per kept name, and never more names than output lines |
| GitGitter.RubyFilesMembers | lib/dirty/cop.rb:35-38 | a name is kept exactly when it is some chomped output line and ends in ".rb" |
| GitGitter.RubyFilesAppend | lib/dirty/cop.rb:35-38 | names keep git's output order |
| GitGitter.RubyFilesOfName | lib/dirty/cop.rb:35-38 | one listed name reads back as itself when it ends in ".rb", and as nothing otherwise |
| GitGitter.RubyFilesOfListing | lib/dirty/cop.rb:35-38 | reading back a listing of names gives exactly its names that end in ".rb", in order |
| HunkHeader.DigitsEnd | lib/dirty/cop.rb:45 | a `\d` run stops at the end of the text or at a non-digit |
| HunkHeader.MatchRange | lib/dirty/cop.rb:45 | a match of `(\d+)(?:,)?(\d+)?` captures text, is non-empty and stays inside the text; `MatchRangeSound` and `MatchRangeText` state what it captures |
| HunkHeader.MatchRangeSound | lib/dirty/cop.rb:45 | what `(\d+)(?:,)?(\d+)?` captures is a well-formed side written at that position, and the match ends just after it |
| HunkHeader.ValueShow | lib/dirty/cop.rb:47-48 | `to_i` of a number written in decimal is that number |
| HunkHeader.NumberAt | lib/dirty/cop.rb:45 | a run of digits followed by a non-digit is captured whole |
| HunkHeader.MatchStartOnly | lib/dirty/cop.rb:45 | `start` then a space captures the start's digits and no count |
| HunkHeader.MatchStartComma | lib/dirty/cop.rb:45 | `start,` then a space captures the start's digits and no count; the comma is consumed |
| HunkHeader.MatchStartCount | lib/dirty/cop.rb:45 | `start,count` then a space captures both digit runs |
| HunkHeader.MatchRangeText | lib/dirty/cop.rb:45 | any written side followed by a space is captured exactly as written |
| HunkHeader.MatchAt | lib/dirty/cop.rb:45-48 | the pattern tried at one position, then `to_i` of captures 3 and 4 (1 when 4 is absent); specified by `MatchAtSpec` |
| HunkHeader.MatchAtHeader | lib/dirty/cop.rb:45-48 | header text at a position is matched there and yields `to_i` of its new start and of its new count, or 1 when the count is missing |
| HunkHeader.MatchAtSound | lib/dirty/cop.rb:45-48 | whatever matches at a position is header text with well-formed sides (leading zeros and a lone comma allowed), and the match yields that text's new start and count, or 1 |
| HunkHeader.MatchAtSpec | lib/dirty/cop.rb:45-48 | the pattern matches at a position exactly when header text stands there, and yields `h` exactly when that text's new side reads as `h` |
| HunkHeader.Matches | lib/dirty/cop.rb:45 | what the pattern yields at each start position of a line; used by `ParseHeader` |
| HunkHeader.Leftmost | lib/dirty/cop.rb:45 | the engine's scan over start positions from the left; specified by `LeftmostNone` and `LeftmostSome` |
| HunkHeader.LeftmostNone | lib/dirty/cop.rb:45 | the scan yields nothing exactly when no position from where it starts has a match |
| HunkHeader.LeftmostSome | lib/dirty/cop.rb:45 | what the scan yields is the match at some position, and no earlier position has a match |
| HunkHeader.ParseHeader | lib/dirty/cop.rb:45-48 | the hunk `grep` takes from one line; specified both ways by `ParseHeaderSpec` |
| HunkHeader.ParseHeaderSpec | lib/dirty/cop.rb:45-48 | a line yields `h` exactly when header text reading as `h` stands at some position with no header text before it, and yields nothing exactly when no header text stands anywhere in it |
| HunkHeader.ParseHeaderText | lib/dirty/cop.rb:45-48 | a header after any '@'-free text, followed by anything, yields `to_i` of its new start and count (leading zeros allowed), or a count of 1 when it is missing |
| HunkHeader.ParseHeaderNeedsMarker | lib/dirty/cop.rb:45 | a line with no `@@ -` in it yields no hunk |
| GitGitter.Headers | lib/dirty/cop.rb:44-49 | `each_line.grep(...) { ... }` over a diff; specified by `HeadersSpec` and `HeadersAppend` |
| GitGitter.HeadersSpec | lib/dirty/cop.rb:44-49 | one hunk per header line and none for other lines; every hunk is the parse of some line |
| GitGitter.HeadersAppend | lib/dirty/cop.rb:44-49 | hunks come out in line order before the reversal |
| GitGitter.LineChangeInfo | lib/dirty/cop.rb:42-51 | `line_change_info`: the hunks of a file's diff, last first; specified by `LineChangeInfoOfLine` and `LineChangeInfoAppend` |
| GitGitter.LineChangeInfoOfLine | lib/dirty/cop.rb:42-51 | a one-line diff yields that line's hunk, or nothing when the line is not a header |
| GitGitter.LineChangeInfoAppend | lib/dirty/cop.rb:42-51 | hunks from later in the diff come first (`.reverse`) |
| GitGitter.DiffInfoOf | lib/dirty/cop.rb:26-32 | the diff map `initialize` builds; specified by `DiffInfoOfSpec` |
| GitGitter.DiffInfoOfSpec | lib/dirty/cop.rb:26-32 | the diff map has every changed file as a key, once each, in listing order, and maps it to the hunks of its own diff |
| RubyHash.Keys | lib/dirty/cop.rb:27-31 | a hash has one key per entry, in order |
| RubyHash.Get | lib/dirty/cop.rb:75 | a lookup finds a value exactly when the key is present |
| RubyHash.Put | lib/dirty/cop.rb:27-31 | Ruby's `h[k] = v`; specified by `PutKeys` and `PutGet` |
| RubyHash.PutKeys | lib/dirty/cop.rb:27-31 | storing keeps the key order, and a new key goes last |
| RubyHash.PutGet | lib/dirty/cop.rb:27-31 | after storing, the stored key gives the new value and every other key its old one |
| RubyHash.FromPairs | lib/dirty/cop.rb:27-31 | `Hash[pairs]`; specified by `FromPairsKeys`, `FromPairsGet` and `FromPairsOfHash` |
| RubyHash.FromPairsKeys | lib/dirty/cop.rb:27-31 | `Hash[pairs]` has the pairs' keys, once each, in first-occurrence order |
| RubyHash.FromPairsGet | lib/dirty/cop.rb:27-31 | when each pair's value is a function of its key, `Hash[pairs]` maps each key to that value |
| RubyHash.FromPairsOfHash | lib/dirty/cop.rb:63-71 | `Hash[h.collect ...]` over a hash with distinct keys rebuilds that hash |
| RubyHash.MapValues | lib/dirty/cop.rb:64-70 | the keys are kept, and each value is transformed |
| RubyHash.MapValuesGet | lib/dirty/cop.rb:64-70 | a lookup after `collect` gives the transformed value |
| Seqs.Map | lib/dirty/cop.rb:37 | `map` keeps the length and applies the block to each element |
| Seqs.Filter | lib/dirty/cop.rb:38 | `grep` keeps exactly the elements that match |
| Seqs.FilterAppend | lib/dirty/cop.rb:38 | `grep` keeps the order of the elements |
| Seqs.Reverse | lib/dirty/cop.rb:50 | `reverse` puts element `i` at position `n - 1 - i` |
| Seqs.Range | lib/dirty/cop.rb:66 | `Array(a..b)` has `b - a + 1` elements, or none, and holds exactly the numbers from `a` to `b` |
| Seqs.Intersect | lib/dirty/cop.rb:75 | `a & b` holds exactly the elements of both, without duplicates |
| Seqs.IntersectOrder | lib/dirty/cop.rb:82 | `a & b` lists its elements in the order of their first occurrence in `a` |
| Cop.HunkLines | lib/dirty/cop.rb:66 | `Array(s .. s + c)` for one hunk; specified by `MaskOfHunk` |
| Cop.Mask | lib/dirty/cop.rb:65-67 | the mask of a file's hunks; specified by `MaskContains` and `MaskAppend` |
| Cop.MaskContains | lib/dirty/cop.rb:65-67 | line `n` is in a file's mask exactly when some hunk `(s, c)` has `s <= n <= s + c` |
| Cop.MaskOfHunk | lib/dirty/cop.rb:66 | one hunk marks `c + 1` lines, `s` and `s + c` included, even when `c = 0` |
| Cop.MaskHasStarts | lib/dirty/cop.rb:65-67 | every hunk's start is in the mask, so a file with hunks has a non-empty mask |
| Cop.MaskAppend | lib/dirty/cop.rb:65-67 | `flatten` keeps hunk order |
| Cop.ChangesOf | lib/dirty/cop.rb:61-72 | the mask map of `changed_files_and_lines`; specified by `ChangesOfSpec` |
| Cop.ChangesOfSpec | lib/dirty/cop.rb:61-72 | the same files in the same order, each mapped to the mask of its own hunks |
| Cop.Buried | lib/dirty/cop.rb:74-77 | `bury_evidence?`; specified by `BuriedSpec` |
| Cop.BuriedSpec | lib/dirty/cop.rb:74-77 | an offense is buried exactly when its file is in the diff map and no hunk of that file marks any of its lines |
| Cop.BuriedEmptyRange | lib/dirty/cop.rb:75-76 | an offense whose line range is empty is buried when its file changed |
| Cop.BuriedMonotonic | lib/dirty/cop.rb:74-77 | replacing the hunks of a file already in the diff map by any list that contains them can only un-bury an offense, never bury one |
| Cop.Selection | lib/dirty/cop.rb:79-84 | what `files_to_inspect` computes on its first call; specified by `SelectionSpec` |
| Cop.SelectionSpec | lib/dirty/cop.rb:79-84 | arguments are returned as given; without them the result is the changed files that are whitelisted, once each, in diff-map order |
| Cop.DirtyCop.constructor | lib/dirty/cop.rb:57-59 | a new object holds the diff map and has no memoised answers |
| Cop.DirtyCop.ChangedFilesAndLines | lib/dirty/cop.rb:61-72 | returns the mask map; the first call stores it and later calls return the stored map |
| Cop.DirtyCop.BuryEvidence | lib/dirty/cop.rb:74-77 | the answer is `Buried` of the mask map, and the mask map is memoised |
| Cop.DirtyCop.FilesToInspect | lib/dirty/cop.rb:79-84 | the first call stores the selection, and every later call returns it whatever its arguments |
| Scenarios.HeaderWithCounts | lib/dirty/cop.rb:45-48 | `@@ -1,2 +4,3 @@` gives (4, 3), which marks lines 4 to 7 |
| Scenarios.HeaderWithoutCounts | lib/dirty/cop.rb:45-48 | `@@ -1 +4 @@` gives (4, 1), which marks lines 4 and 5 |
| Scenarios.HeaderOfDeletion | lib/dirty/cop.rb:45-48 | `@@ -1,2 +4,0 @@` gives (4, 0), which still marks line 4 |
| Scenarios.HeaderWithTrailingComma | lib/dirty/cop.rb:45-48 | `@@ -3, +8, @@` gives (8, 1) |
| Scenarios.HeaderInsideAddedLine | lib/dirty/cop.rb:45 | an added line that contains header text is read as a header |
| Scenarios.HeaderWithLeadingZeros | lib/dirty/cop.rb:45-48 | `@@ -01 +007,02 @@` gives (7, 2): `to_i` reads through leading zeros |
| Scenarios.TruncatedHeader | lib/dirty/cop.rb:45 | `@@ -1 +2 @` yields no hunk |
| Scenarios.ThreeHunkMask | lib/dirty/cop.rb:63-67 | hunks (4,1) (6,4) (12,1) mark lines 4-5, 6-10 and 12-13 |
| Scenarios.ThreeHunkOffenses | lib/dirty/cop.rb:74-77 | with that mask, an offense on line 6 is kept, one on line 1 is buried, and one in an unchanged file is kept |
| Scenarios.NewFileBuries | lib/dirty/cop.rb:74-77 | an offense on line 1 of a file missing from the diff map is kept, and once that file has the hunk (10, 0) the same offense is buried |
| Scenarios.SelectionByWhitelist | lib/dirty/cop.rb:79-84 | changed [company, user, project] and whitelisted [app, company, user] give [company, user] |
| Scenarios.SelectionByArguments | lib/dirty/cop.rb:80 | explicit arguments are returned unchanged |

## Left out

- The two git commands (lib/dirty/cop.rb:35 and :43) are not run. Their standard output is a parameter: `nameOnly` holds the output of `git diff --diff-filter=AM --name-only HEAD`, and `diffOf(f)` holds the output of `git diff -p -U0 HEAD f`. A failing git command yields empty output, which the model treats like any other text.
- `File.absolute_path` (lib/dirty/cop.rb:39) depends on the working directory. It is the parameter `absolutePath`, and nothing is assumed about it. If it maps two names to one path, the diff map keeps that path once, and the later file's hunks win, as `Hash[]` does.
- The RuboCop patches (lib/dirty/cop.rb:87-109) are not modelled. These are `TargetFinder#find` and `Commissioner#investigate`. Each hook call builds a fresh `DirtyCop` from a fresh `GitGitter`, so the memo fields live only as long as one call. RuboCop's file discovery (`find_unpatched`), which supplies the whitelist, is a parameter.
- A RuboCop offense is reduced to the three things `bury_evidence?` reads: the buffer name and the first and last line.
- HunkHeader.ParseHeader: Ruby's backtracking regular-expression engine is replaced by a direct recogniser. It tries each start position from the left and takes every digit run greedily. Backtracking may split a digit run, but it reaches no other result. The engine tries the greedy choice first and reports its captures when it succeeds. Every other split ends in one of two places. Either it ends where the greedy choice ended, facing the same remaining text that already failed. Or it ends just before a digit or a comma, where ` \+` and ` @@` (both starting with a space) cannot match. `\d` is taken to be ASCII only.
- Text is a sequence of valid characters. Ruby raises `ArgumentError` ("invalid byte sequence") when a regular expression meets bytes that are invalid in the string's encoding (lib/dirty/cop.rb:38 and :45). That exception is not modelled.
- RubyHash: hash keys are compared by string equality. Ruby's `eql?`/`hash` on strings agrees with it.
- Integers are unbounded, as Ruby's are.
