# dbtdoc in Dafny

`dbtdoc` reads the block comments of the SQL files in a dbt project, then writes
per directory:
- a `docs.md` holding one `{% docs %}` block per described resource;
- a property file listing a record for each resource, with its name, a doc
  reference and the `columns`/`arguments`/`docs` entries taken from a fenced
  ```` ```dbt ```` YAML fragment in the comment.

This project models that core and proves properties of the model:
- how a comment is split into a description and a fragment;
- how macro, test and materialization blocks are cut out of a file and named,
  with the two regular expressions modelled exactly;
- how strings of the fragment are marked `quoted`;
- what the two directory scanners collect;
- the text of the doc file and the head of the property file.

Modules, in dependency order:

- `Results` (`results.dfy`): `Option`, `Result` and the error kinds. These are
  a fragment the loader rejects, a `key in`/`a_dbt[key]` on a non-mapping
  fragment that raises, and a block whose header does not match.
- `PyText` (`pytext.dfy`): Python's `str.find`, slicing with negative and
  out-of-range bounds, and `strip()` / `strip(chars)`.
- `Fragment` (`fragment.dfy`): the loaded YAML value as a tagged tree, plus
  `_quote_dict` as a function, with a method carrying the loops of the source.
  Also the `key in a_dbt` lookup with Python's dynamic typing, and the
  whitelisting of `columns`/`docs` or `arguments`/`docs`.
- `Comments` (`comments.dfy`): the comment and fence splitter. It is shared by
  `_read_blocks` and, inlined, by `_scan_macros`.
- `Constructs` (`constructs.dfy`): the `findall` block regex and the `match`
  header regex, modelled as backtracking first-match searches. A lazy
  quantifier is the leftmost position where the rest of the pattern matches.
  This module also holds the connector strip and the record name.
- `Assembler` (`assembler.dfy`): the insertion-ordered `doc_blocks` dictionary
  and the two scanners. Each scanner is a method with the source's loops,
  proved equal to a fold over the directory's files.
- `Output` (`output.dfy`): the text `_write_doc_md` writes, and the banner,
  version line and top-level key `_write_property_yml` writes.

A directory is its list of files, each with a name and its text. The YAML
loader is a parameter of type `string -> Option<Node>`, where `None` means
`yaml.load` raises.

In these points the code does something other than a first reading suggests;
the model follows the code:

- The comment body runs from the first `/*` to the first `*/` anywhere in the
  text, not the first one after the `/*`. An `*/` before the `/*` gives an
  empty body.
- When `*/` or the closing fence is missing, the failed `find` returns -1, which
  is used as a slice end. The body or fragment then loses its last character.
  Without a fence, the description is also the body less its last character
  (`UnfencedSplit`).
- `_quote_dict` does not reach every string. It quotes the string values of a
  mapping, and recurses into mapping values and into mappings that are elements
  of list values. Strings directly inside a list, and lists nested in lists,
  stay unquoted (`QuoteDictValues`).
- The top-level key of the property file is fixed by the scanner: `models` for
  `_scan_models`, `macros` for `_scan_macros`. It does not depend on what was
  found.
- The models scanner makes a doc block and a record only when the stripped
  description is non-empty. The macros scanner makes a record for every block
  (`ScanMacrosCount`).
- The models scanner loads the fragment even when the description is empty, so
  a fragment the loader rejects still fails the run (`ModelStep`).
- An empty fence under a non-empty description yields the loader's `None`, and
  `key in None` raises (`EmptyFenceFailsModel`).
- The doc block of a construct is keyed by its base name, not its record name.
  A test and a macro of the same base name therefore share one doc block
  (`TestAndMacroShareDocBlock`).

## Model

| member | source | states |
|---|---|---|
| PyText.Find | dbtdoc/dbtdoc.py:65-66 | `str.find`: -1 or an occurrence at or after `start`, with no occurrence before it; -1 exactly when none occurs at or after `start` |
| PyText.FindIs | dbtdoc/dbtdoc.py:65-66 | the first occurrence at or after `start` is what `find` returns |
| PyText.FindNone | dbtdoc/dbtdoc.py:65-66 | with no occurrence at or after `start`, `find` returns -1 |
| PyText.Bound | dbtdoc/dbtdoc.py:67 | a slice index: a negative index counts from the end, and the result is clamped to `[0, len]` |
| PyText.Slice | dbtdoc/dbtdoc.py:67 | a Python slice is as long as the distance between its normalised bounds, and empty when the end does not come after the start |
| PyText.SliceInRange | dbtdoc/dbtdoc.py:67 | a slice with in-range bounds is the plain subsequence |
| PyText.SliceToMinusOne | dbtdoc/dbtdoc.py:75 | a slice ending at -1 stops one character short of the end |
| PyText.LStrip | dbtdoc/dbtdoc.py:77 | a suffix of the input, all of whose cut characters are dropped ones, that does not start with a dropped character |
| PyText.RStrip | dbtdoc/dbtdoc.py:77 | a prefix of the input, all of whose cut characters are dropped ones, that does not end with a dropped character |
| PyText.StripBy | dbtdoc/dbtdoc.py:167 | no longer than the input, starting and ending with a kept character |
| PyText.Strip | dbtdoc/dbtdoc.py:77 | `str.strip()`: no longer than the input, with no whitespace at either end |
| PyText.StripByShape | dbtdoc/dbtdoc.py:77 | the stripped text is a contiguous piece of the input with only dropped characters cut on both sides |
| PyText.StripKeepsChars | dbtdoc/dbtdoc.py:165-167 | every character of the stripped text is a character of the input |
| PyText.StripIdempotent | dbtdoc/dbtdoc.py:77 | stripping twice is stripping once |
| PyText.LStripNoop | dbtdoc/dbtdoc.py:77 | a text beginning and ending with kept characters is unchanged by both strips |
| Fragment.Truthy | dbtdoc/dbtdoc.py:124 | a falsy value is one `_quote_dict` leaves unchanged |
| Fragment.QuoteDict | dbtdoc/dbtdoc.py:121-133 | a mapping stays a mapping with the same keys in the same order; anything else is returned unchanged |
| Fragment.QuoteValue | dbtdoc/dbtdoc.py:126-133 | a list stays a list of the same length, a mapping a mapping with the same keys, and a string becomes quoted |
| Fragment.QuoteDictQuotes | dbtdoc/dbtdoc.py:121-133 | afterwards no string value of the mapping, or of a mapping nested in a value or in a list value, is unquoted |
| Fragment.QuoteValueQuotes | dbtdoc/dbtdoc.py:126-133 | the same, for one mapping value |
| Fragment.QuoteDictFixes | dbtdoc/dbtdoc.py:121-133 | an already quoted tree is left unchanged |
| Fragment.QuoteValueFixes | dbtdoc/dbtdoc.py:126-133 | the same, for one mapping value |
| Fragment.QuoteDictIdempotent | dbtdoc/dbtdoc.py:121-133 | quoting twice is quoting once |
| Fragment.QuoteDictNoop | dbtdoc/dbtdoc.py:124-125 | a value that is not a mapping is returned unchanged |
| Fragment.QuoteDictValues | dbtdoc/dbtdoc.py:126-133 | per value: a string becomes quoted, a mapping is quoted recursively, and each list element is quoted if it is a mapping and kept otherwise |
| Fragment.QuoteDictPlain | dbtdoc/dbtdoc.py:121-133 | quoting changes nothing but the quoted marker: erasing it gives back the input |
| Fragment.QuoteValuePlain | dbtdoc/dbtdoc.py:126-133 | the same, for one mapping value |
| Fragment.QuoteInPlace | dbtdoc/dbtdoc.py:121-133 | the loops of `_quote_dict` compute `QuoteDict` |
| Fragment.Get | dbtdoc/dbtdoc.py:113-114 | a value exactly when the key is among the mapping's keys, taken from an entry with that key |
| Fragment.Lookup | dbtdoc/dbtdoc.py:113-114 | on a mapping, the value for the key if any; on `None`, a boolean or a number, a type error; on a list or string, "absent" or a type error |
| Fragment.Whitelist | dbtdoc/dbtdoc.py:112-114 | every added entry has a listed key and, on a mapping, the mapping's value for that key; a non-mapping adds nothing; on a mapping it never fails, since `key in` and indexing a dict cannot raise |
| Fragment.WhitelistKeepsListed | dbtdoc/dbtdoc.py:112-114 | every listed key the mapping holds is added |
| Fragment.WhitelistInOrder | dbtdoc/dbtdoc.py:112-114 | on a mapping, the record gets one entry for each listed key the mapping holds, in the order the keys are listed |
| Comments.CommentBody | dbtdoc/dbtdoc.py:65-67 | the comment body is no longer than the text |
| Comments.SplitFence | dbtdoc/dbtdoc.py:69-77 | an empty body gives an empty description and no fragment; a description has no whitespace at either end |
| Comments.ReadBlocks | dbtdoc/dbtdoc.py:65-79 | a text with an empty comment body gives an empty description and no fragment; a description has no whitespace at either end |
| Comments.NoOpeningComment | dbtdoc/dbtdoc.py:65-70 | a text without `/*` gives an empty description and no fragment |
| Comments.BodyBetweenMarkers | dbtdoc/dbtdoc.py:65-67 | with both markers present, the body is the text strictly between the first `/*` and the first `*/`, or empty when that `*/` comes too early |
| Comments.BodyUnclosed | dbtdoc/dbtdoc.py:65-67 | with no `*/`, the body runs from after `/*` to the end less its last character |
| Comments.FencedSplit | dbtdoc/dbtdoc.py:71-77 | with a fence, the description is the stripped text before it, and the fragment runs to the next closing fence, or to the end less one character |
| Comments.UnfencedSplit | dbtdoc/dbtdoc.py:71-77 | without a fence there is no fragment, and the description is the stripped body less its last character |
| Comments.FragmentNeedsFence | dbtdoc/dbtdoc.py:74-76 | a fragment is produced only when the body contains the fence opener |
| Constructs.KeywordByChars | dbtdoc/dbtdoc.py:159 | which keyword occurs at a position is fixed by two of its characters |
| Constructs.KeywordsExclusive | dbtdoc/dbtdoc.py:159 | no two keywords of the alternation match at one position |
| Constructs.KeywordAtFinds | dbtdoc/dbtdoc.py:159 | the alternation finds whichever keyword occurs at the position |
| Constructs.KeywordAtOccurs | dbtdoc/dbtdoc.py:159 | the keyword the alternation reports occurs at the position |
| Constructs.KeywordEnd | dbtdoc/dbtdoc.py:159 | -1 exactly when no keyword is at the position, and otherwise a position past it |
| Constructs.FirstTrue | dbtdoc/dbtdoc.py:161 | the lazy-quantifier search: the leftmost position at or after the start where the rest of the pattern matches, or -1 when there is none |
| Constructs.EndFrom | dbtdoc/dbtdoc.py:159 | the end of the `.*?end<keyword> ` part, past its start |
| Constructs.EndFromFails | dbtdoc/dbtdoc.py:159 | that part fails exactly when no end marker follows |
| Constructs.EndFromFirst | dbtdoc/dbtdoc.py:159 | `.*?end<keyword> ` stops at the first end marker from its start: with none before `m`, that part ends right after the marker at `m` |
| Constructs.BodyFrom | dbtdoc/dbtdoc.py:159 | the end of the part after the comment, past its start |
| Constructs.BodyFromFails | dbtdoc/dbtdoc.py:159 | that part fails exactly when no spaced keyword with an end marker after it follows |
| Constructs.BodyFromFirst | dbtdoc/dbtdoc.py:159 | the first spaced keyword from the start that has an end marker after it decides where the part after the comment ends |
| Constructs.CloseFrom | dbtdoc/dbtdoc.py:159 | the end of the rest of the match once the comment's `.*?` starts at the position, past the `*/` |
| Constructs.CloseFromFails | dbtdoc/dbtdoc.py:159 | the rest of the match fails exactly when no `*/` from the position has a body after it |
| Constructs.CloseFromFirst | dbtdoc/dbtdoc.py:159 | the comment's lazy `.*?\*/` closes at the first `*/` from the position that has a body after it |
| Constructs.BlockMatchAt | dbtdoc/dbtdoc.py:159 | a match starts with `/*` and is longer than it |
| Constructs.EndFromParts | dbtdoc/dbtdoc.py:159 | when `.*?end<keyword> ` succeeds, it stops at an end marker at or after its start, and ends where the match from that marker ends |
| Constructs.BodyFromParts | dbtdoc/dbtdoc.py:159 | when the part after the comment succeeds, it uses a spaced keyword at or after its start, and ends where the end-marker search after that keyword ends |
| Constructs.CloseFromParts | dbtdoc/dbtdoc.py:159 | when the rest of the match succeeds, the comment closes at a `*/` at or after the position that has a body after it, and the match is the one from there |
| Constructs.BlockMatchParts | dbtdoc/dbtdoc.py:159 | a match is `/*`, then a `*/`, then a spaced keyword, then an end marker, in that order, and it ends right after the marker's keyword and space |
| Constructs.BlockMatchFound | dbtdoc/dbtdoc.py:159 | a `/*`, then a `*/`, a spaced keyword and an end marker in that order make the block regex match there; with `BlockMatchParts`, a match starts at a position exactly when these parts follow it in order |
| Constructs.FindAllFromBlocks | dbtdoc/dbtdoc.py:159-160 | every block `findall` reports starts with `/*` and is longer than it |
| Constructs.ScannedMatch | dbtdoc/dbtdoc.py:159-160 | a match at the position, followed by the blocks scanned from its end, is the scan from the position |
| Constructs.ScannedSkip | dbtdoc/dbtdoc.py:159-160 | with no match at the position, the scan from the next position is the scan from this one |
| Constructs.FindAllFromScanned | dbtdoc/dbtdoc.py:159-160 | the search reports exactly the successive non-overlapping matches: each block is the slice of the file from the leftmost match at or after the previous block's end to that match's end, and no match starts after the last block |
| Constructs.FindAll | dbtdoc/dbtdoc.py:159-160 | the blocks of a file are those successive matches, scanned from its start |
| Constructs.NoCommentNoBlocks | dbtdoc/dbtdoc.py:159-160 | a file without `/*` has no construct blocks |
| Constructs.SkipSpaces | dbtdoc/dbtdoc.py:161 | the greedy ` *`: every skipped character is a space, and the next one is not |
| Constructs.NextSpace | dbtdoc/dbtdoc.py:161 | the first space at or after the position, or -1 when there is none |
| Constructs.AdapterClause | dbtdoc/dbtdoc.py:161 | the adapter clause starts with a comma, and its group 3 holds no space |
| Constructs.TailAt | dbtdoc/dbtdoc.py:161 | the tail: the parenthesis alternative exactly when `(` is at the position, otherwise the adapter clause after a comma, whose group 3 holds no space |
| Constructs.NameFrom | dbtdoc/dbtdoc.py:161 | the name part `[^ ]*?` has no space and ends where the tail matches |
| Constructs.NameFromIsShortest | dbtdoc/dbtdoc.py:161 | the lazy name is the shortest one the tail accepts |
| Constructs.NameFromFails | dbtdoc/dbtdoc.py:161 | the name and tail fail exactly when no space-free stretch from the position is followed by the tail |
| Constructs.HeaderFrom | dbtdoc/dbtdoc.py:161 | a header's name holds no space |
| Constructs.HeaderFromFinds | dbtdoc/dbtdoc.py:161 | a header at a position is found by the lazy search from any start up to it |
| Constructs.HeaderClose | dbtdoc/dbtdoc.py:161 | the header comment closes at a `*/` at or after index 2 that is followed by a header |
| Constructs.MatchHeader | dbtdoc/dbtdoc.py:161 | a matched block starts with `/*`, and its name holds no space |
| Constructs.HeaderCommentEndsAtFirstClose | dbtdoc/dbtdoc.py:161 | when the header matches, its comment closes at the first `*/` from index 2 |
| Constructs.Connector | dbtdoc/dbtdoc.py:166-169 | empty with no adapter group; otherwise the group stripped of backslashes, spaces and quotes, neither starting nor ending with one |
| Constructs.ParseHeader | dbtdoc/dbtdoc.py:161-169 | a header failure exactly when the header regex does not match; on success the name holds no space and has no whitespace at either end, and the connector has no trim character at either end |
| Constructs.ResourceName | dbtdoc/dbtdoc.py:186-191 | a test's or macro's record name ends in the base name, and a materialization's in `_` and the connector |
| Constructs.ResourceNameRecoversBase | dbtdoc/dbtdoc.py:185-191 | a record name consists of its prefix and the base name (and connector), so these can be read back from it |
| Constructs.MacroAndTestNamesCollide | dbtdoc/dbtdoc.py:186-191 | a macro `test_foo` and a test `foo` get the same record name |
| Constructs.ResourceNameExamples | dbtdoc/dbtdoc.py:186-191 | the record names of a test, a materialization and a macro on sample names |
| Assembler.Put | dbtdoc/dbtdoc.py:106 | assigning a key: the new value is stored, an existing key keeps its place, and a new one goes last |
| Assembler.PutValid | dbtdoc/dbtdoc.py:106 | the dictionary stays well formed: each key listed once, exactly the keys that have values |
| Assembler.PutLastWins | dbtdoc/dbtdoc.py:195 | writing a key twice is writing it once, with the later value |
| Assembler.IsSqlFile | dbtdoc/dbtdoc.py:98 | a file is read exactly when it is at least three characters long and ends in `sql` |
| Assembler.ModelName | dbtdoc/dbtdoc.py:101 | for a `sql` file, the model name followed by the last four characters is the file name |
| Assembler.SqlFileNames | dbtdoc/dbtdoc.py:98-101 | `<base>.sql` is read and named `<base>`; `<base>.yml` is skipped |
| Assembler.DocRef | dbtdoc/dbtdoc.py:109 | the doc reference holds the name at a fixed place, 13 characters longer than it |
| Assembler.DocTarget | dbtdoc/dbtdoc.py:196 | a record whose second entry is the doc reference to a name points at that name |
| Assembler.ModelRecord | dbtdoc/dbtdoc.py:107-109 | the record is named by the model name |
| Assembler.AddModel | dbtdoc/dbtdoc.py:105-115 | the doc block is stored under the model name, and one record is appended that leads with the name and doc reference, followed by exactly the whitelisted `columns`/`docs` entries of the quoted fragment; it fails exactly when the whitelisting fails, and never on a mapping fragment |
| Assembler.ModelStep | dbtdoc/dbtdoc.py:96-114 | a file not ending in `sql` changes nothing; a fragment the loader rejects fails the run even without a description; an undescribed file whose fragment loads changes nothing |
| Assembler.ScanModelsFrom | dbtdoc/dbtdoc.py:96-115 | a successful scan of the remaining files keeps the records collected so far |
| Assembler.ScanModels | dbtdoc/dbtdoc.py:94-115 | the scanning loop computes the fold `ScanModelsFrom` over the directory's files |
| Assembler.ScanModelsCount | dbtdoc/dbtdoc.py:96-115 | a successful scan appends one record per described `sql` file and keeps the earlier ones |
| Assembler.DescribedModelStepOk | dbtdoc/dbtdoc.py:98-115 | a described `sql` file whose fragment is absent or loads to a mapping is processed without error and appends one record named after the file |
| Assembler.ScanModelsOk | dbtdoc/dbtdoc.py:96-115 | a directory whose `sql` files all have an absent or mapping fragment is scanned without error, with one record per described `sql` file |
| Assembler.SameModelNameShareDocBlock | dbtdoc/dbtdoc.py:105-115 | two described models with the same name give two records named by it but one doc block, holding the later description |
| Assembler.AddModelConsistent | dbtdoc/dbtdoc.py:105-115 | adding a model keeps the doc dictionary and the records consistent |
| Assembler.ModelStepConsistent | dbtdoc/dbtdoc.py:96-115 | one file keeps that consistency |
| Assembler.ScanModelsConsistent | dbtdoc/dbtdoc.py:96-115 | the rest of the scan keeps it |
| Assembler.ModelsScanConsistent | dbtdoc/dbtdoc.py:94-115 | the doc keys are exactly the record names, and each record refers to its own doc block |
| Assembler.EmptyFenceFailsModel | dbtdoc/dbtdoc.py:105-114 | a described model with an empty fence, which loads as `None`, fails on `"columns" in None` |
| Assembler.AddConstruct | dbtdoc/dbtdoc.py:185-205 | one record named by `ResourceName` is appended; a doc block is added under the base name exactly when described, and the record's second entry is then the doc reference to it; after the name and that reference come exactly the whitelisted `arguments`/`docs` entries of the quoted fragment when it is truthy, and nothing when it is falsy; it never fails on a mapping fragment |
| Assembler.MacroBlockStep | dbtdoc/dbtdoc.py:161-182 | a block whose header regex fails fails the run with a header error; a matched block whose fragment the loader rejects fails it with a fragment error |
| Assembler.MacroBlocksFrom | dbtdoc/dbtdoc.py:160-205 | a successful pass over the remaining blocks keeps the records collected so far |
| Assembler.MacroStep | dbtdoc/dbtdoc.py:150-152 | a file not ending in `sql` changes nothing |
| Assembler.ScanMacrosFrom | dbtdoc/dbtdoc.py:148-205 | a successful scan of the remaining files keeps the records collected so far |
| Assembler.AddBlocks | dbtdoc/dbtdoc.py:160-205 | the loop over a file's blocks computes the fold `MacroBlocksFrom` |
| Assembler.ScanMacros | dbtdoc/dbtdoc.py:146-205 | the nested scanning loops compute the fold `ScanMacrosFrom` over the directory's files |
| Assembler.MacroBlocksCount | dbtdoc/dbtdoc.py:160-205 | a file's blocks append one record each and keep the earlier ones |
| Assembler.ScanMacrosCount | dbtdoc/dbtdoc.py:148-205 | a successful scan appends exactly one record per construct block of the `sql` files, described or not |
| Assembler.MacroBlockStepOk | dbtdoc/dbtdoc.py:161-205 | a block whose header matches and whose fragment is absent, falsy or a mapping is processed without error and appends one record named by `ResourceName` |
| Assembler.MacroBlocksOk | dbtdoc/dbtdoc.py:160-205 | a file whose blocks are all usable in that sense is processed without error |
| Assembler.ScanMacrosOk | dbtdoc/dbtdoc.py:148-205 | a directory whose `sql` files hold only usable blocks is scanned without error, with one record per block |
| Assembler.AddConstructConsistent | dbtdoc/dbtdoc.py:185-205 | adding a construct keeps the doc dictionary well formed, with its keys exactly the names the records' doc references point at |
| Assembler.MacroBlockStepConsistent | dbtdoc/dbtdoc.py:160-205 | one block keeps that consistency |
| Assembler.MacroBlocksConsistent | dbtdoc/dbtdoc.py:160-205 | a file's remaining blocks keep it |
| Assembler.ScanMacrosConsistent | dbtdoc/dbtdoc.py:148-205 | the rest of the scan keeps it |
| Assembler.MacrosScanConsistent | dbtdoc/dbtdoc.py:146-205 | after a scan from nothing, the doc dictionary is well formed and its keys are exactly the names the doc references point at |
| Assembler.TestAndMacroShareDocBlock | dbtdoc/dbtdoc.py:185-196 | a described test and macro with the same base name give two records but one doc block, holding the later description |
| Output.DocText | dbtdoc/dbtdoc.py:251-260 | the doc file starts with the banner |
| Output.WriteDocText | dbtdoc/dbtdoc.py:251-260 | the writing loop produces `DocText`: the banner, then each doc block in insertion order |
| Output.DocTextEmpty | dbtdoc/dbtdoc.py:252-256 | the doc file is the banner alone exactly when there are no doc blocks |
| Output.SectionsFrame | dbtdoc/dbtdoc.py:257-260 | the doc blocks depend only on the values of the keys written |
| Output.DocTextPutNew | dbtdoc/dbtdoc.py:257-260 | a newly added name appends its doc block at the end of the doc file |
| Output.PropertyFileHead | dbtdoc/dbtdoc.py:228-234 | the property file starts with the banner |
| Output.PropertyFileHeadEmpty | dbtdoc/dbtdoc.py:228-234 | the property file is the banner alone exactly when there are no records, and otherwise starts with the banner |
| Output.ModelsPropertyHead | dbtdoc/dbtdoc.py:94-118 | the property file of a models directory is the banner alone when no `sql` file is described, and otherwise is followed by the version line and `models:` |
| Output.MacrosPropertyHead | dbtdoc/dbtdoc.py:146-208 | the property file of a macros directory is the banner alone when its `sql` files hold no construct block, and otherwise is followed by the version line and `macros:` |
| Output.ModelsDocFileEmpty | dbtdoc/dbtdoc.py:94-119 | after a models scan the doc dictionary can be written, and the doc file is the banner alone exactly when there are no records |
| Output.MacrosDocFileEmpty | dbtdoc/dbtdoc.py:146-209 | after a macros scan the doc dictionary can be written, and the doc file is the banner alone exactly when no record carries a doc reference |

## Left out

- File system access is not modelled: the directory checks, `os.walk`, file
  reads and writes, and the backup renames with their timestamps. A directory
  is given as its list of files, in listing order.
- The command line (`argparse`), the configuration file and logging are not
  modelled.
- `yaml.load` is a parameter of the model, so what it accepts is not modelled.
  Neither are floats, timestamps, non-string mapping keys, duplicate keys, or
  anchors and aliases, which share a subtree.
- `yaml.dump`, the `quoted` representer and the indentation of the records in
  the property file are not modelled; only the quoted marker is carried.
- Fragment.QuoteInPlace: updates a value and returns it. It does not model
  that `_quote_dict` mutates the loaded object in place, so it says nothing
  about aliasing.
- Assembler.MacroBlockStep: a block whose header regex fails yields the error
  `MalformedHeader`; which Python exception the unguarded `rr.group` raises is
  not modelled.
- `_run` and the loop over directories are not modelled: each directory is
  independent, and the scanners are modelled for one directory.
