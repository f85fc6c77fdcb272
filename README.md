# OR-sqlite-comparer, modelled in Dafny

The comparer finds every copy of a snapshot store under a directory tree, groups the copies
by store identity, and compares each pair of copies in a group.

- **Copies.** A copy is a file that carries, at byte offset 4096, the 16-byte SQLite header
  "SQLite format 3\0".
- **Identity.** The store's identity is the name written in the file's first 100 bytes.
- **Position labels.** Each copy carries the position label in force where the walk met it.
  The label is inherited from the enclosing directory. Any entry whose name contains
  "repositories" overwrites it, for that entry and every later sibling. The new label is the
  trimmed text before the first "-repositories" in the name.
- **Stored path.** The path stored for a copy is its full path, with the first occurrence of
  its file name replaced by the identity, followed by ".sqlite".
- **Comparison.** For each identity, in the map's insertion order, the driver visits every
  pair of copies (i, j) with i < j. It tries to attach both copies under aliases made from
  `<identity>_<label>`, with every character outside `[A-Za-z0-9_]` turned into `_`.

The model has five modules.

- `Wrappers`: `Option`.
- `JsText`: the JavaScript string primitives the code relies on. They are written out over
  `seq<char>`:
  - `trim`, with the ECMAScript whitespace set; NUL is not whitespace;
  - `indexOf` and `includes`;
  - `split(sep)[0]`;
  - `replace` with a string pattern, which replaces the first occurrence only;
  - the global deletion of NUL characters.
- `StoreFormat`: bytes, `isSQLiteFile` and `getFileName`.
- `Traversal`: the directory walk, in two parts.
  - The specification is pure. `DiscoverEntries` lists the detected copies in walk order,
    with their labels. `AppendAll` folds that list into the identity map.
  - The imperative walk keeps the map in the class `PositionFiles`: the key insertion order
    plus a `map` from identity to copies. The methods `Traverse` and `Visit` mutate it, and
    they are proved equal to the specification.
- `Comparison`: the alias sanitiser and the driver's nested pair loops.
  - The method `CompareAll` produces the plan of comparisons in the order the loops issue
    them. Each plan entry holds the identity, the two indices, and the alias and path of
    each side.
  - The plan is proved equal to the pure `Plan`. Every pair i < j of every group appears in
    it exactly once, n(n-1)/2 pairs per group.

## Model

| member | source | states |
|---|---|---|
| JsText.Trim | src/index.ts:16 | the result is the infix of the input that starts after its leading whitespace, neither starts nor ends with whitespace, and is followed only by whitespace |
| JsText.TrimKeeps | src/index.ts:16 | a string that neither starts nor ends with whitespace is unchanged by trimming |
| JsText.TrimIdempotent | src/index.ts:16 | trimming twice equals trimming once |
| JsText.TrimSkipsLeadingSpace | src/index.ts:16 | one whitespace character before an already-trimmed string is removed by trimming |
| JsText.IndexOf | src/index.ts:44-45 | `Some(i)` exactly when the pattern occurs at i and nowhere before; `None` exactly when it occurs nowhere |
| JsText.IncludesMeans | src/index.ts:44 | `includes` holds exactly when the pattern occurs at some index |
| JsText.IncludesInside | src/index.ts:44 | a pattern placed inside a string is found |
| JsText.IndexOfAfter | src/index.ts:45 | when the prefix does not contain the separator, and the separator's first character does not recur within it, the first separator is found right after the prefix |
| JsText.IndexOfExtend | src/index.ts:57 | the first occurrence within `s` stays the first occurrence in `s + t` |
| JsText.SplitHead | src/index.ts:45 | `split(sep)[0]` is a prefix of the input; it is the whole input iff the separator is absent, and otherwise it ends at the first separator |
| JsText.ReplaceFirst | src/index.ts:57 | without an occurrence the string is unchanged. Otherwise, at the first occurrence i, the result is the text before i, then the replacement, then the text after the occurrence; the length changes by the replacement's length minus the pattern's |
| JsText.ReplaceFirstExtend | src/index.ts:57 | once `s` contains the pattern, text appended after `s` is left untouched by the replacement |
| JsText.RemoveNul | src/index.ts:16 | the result is no longer than the input and has exactly the input's characters other than NUL |
| JsText.RemoveNulAppend | src/index.ts:16 | deleting NULs distributes over concatenation |
| JsText.RemoveNulKeeps | src/index.ts:16 | a NUL-free string is unchanged |
| JsText.RemoveNulAllNul | src/index.ts:16 | a string of NULs becomes empty |
| JsText.TrimSpaceThenDrop | src/index.ts:16 | for whitespace, then a name starting with a non-space, then NUL padding: trim removes only the whitespace, and the slice plus NUL deletion leave the name minus its first character |
| StoreFormat.Subarray | src/index.ts:9 | `subarray` clamps both bounds: in range it is the plain slice, and past the end it is shorter than asked |
| StoreFormat.IsSQLiteFile | src/index.ts:7-11 | true iff the buffer has at least 4112 bytes and bytes [4096, 4112) equal the magic constant |
| StoreFormat.Decode | src/index.ts:16 | one character per byte, with the same code |
| StoreFormat.MagicSpellsSqliteFormat3 | src/index.ts:8 | the hex constant decodes to "SQLite format 3" followed by NUL |
| StoreFormat.GetFileName | src/index.ts:13-19 | the name never contains NUL and is at most 99 characters |
| StoreFormat.FileNameReadsHeaderOnly | src/index.ts:15 | two buffers that agree on the first 100 bytes give the same name |
| StoreFormat.FileNameOfHeader | src/index.ts:15-16 | the name of `header + rest` is computed from the 100-byte header alone |
| StoreFormat.FileNameOfPaddedHeader | src/index.ts:13-19 | a non-whitespace marker byte, a NUL-free name and at least one NUL of padding yield exactly that name |
| StoreFormat.MyStoreExample | src/index.ts:13-19 | marker 0x01, "MyStore", then NUL padding gives "MyStore" |
| StoreFormat.WhitespaceMarkerDropsFirstLetter | src/index.ts:16 | when the marker byte is whitespace, trimming removes it, so the slice drops the name's first letter |
| StoreFormat.BlankHeaderGivesEmptyName | src/index.ts:13-19 | an all-NUL header gives the empty name |
| Traversal.Join | src/index.ts:48 | the path is the parent, one '/', then the name |
| Traversal.NextLabel | src/index.ts:44-46 | a name without "repositories" keeps the label; a name with it sets a label no longer than the name and already trimmed |
| Traversal.LabelOfMarkerName | src/index.ts:44-45 | "<prefix>-repositories<rest>" sets the label to the trimmed prefix, whatever label was in force, whenever the prefix holds no earlier "-repositories" (it may contain '-') |
| Traversal.LabelOfMarkerDir | src/index.ts:44-45 | "<prefix>-repositories" sets the label to the trimmed prefix under the same condition |
| Traversal.LabelOfHyphenatedPosition | src/index.ts:44-45 | "eu-west-repositories" sets the label "eu-west" |
| Traversal.LabelOfBareMarker | src/index.ts:44-45 | a name containing "repositories" but not "-repositories" sets the label to the whole trimmed name |
| Traversal.LabelAfter | src/index.ts:41-46 | after a run of entries, the label is the inherited one when no name is a marker, and the one set by the last name when that name is a marker |
| Traversal.DetectFile | src/index.ts:54-69 | a file contributes one record iff it is a store; the record has the header name as key, the label in force, and a path ending in ".sqlite" |
| Traversal.DiscoverEntries | src/index.ts:40-73 | the walk of a directory yields one record per store image in it, at any depth |
| Traversal.DiscoverEntry | src/index.ts:48-71 | one entry yields one record per store image in it |
| Traversal.DiscoveredAreRecorded | src/index.ts:55-67 | every record of the walk has a ".sqlite" path and a NUL-free identity of at most 99 characters |
| Traversal.RewriteOfLastSegment | src/index.ts:48-57 | when the file name (no '/') does not occur in the directory path, the rewrite replaces the last segment by the identity |
| Traversal.RewriteOfEarlierOccurrence | src/index.ts:57 | when the directory path already contains the file name, the directory part is rewritten and the file segment is kept |
| Traversal.StoredPathOfStore | src/index.ts:48-67 | in the walk, such a store is recorded as `<dir>/<identity>.sqlite` with the label in force |
| Traversal.FileMarkerLabelsItself | src/index.ts:43-64 | the marker rule applies to files: a store named "<prefix>-repositories..." is recorded under the trimmed prefix, and that label remains in force |
| Traversal.DiscoverSplit | src/index.ts:43-46 | walking `a + b` is walking `a`, then `b` with the label `a` leaves behind |
| Traversal.DiscoverCons | src/index.ts:43-52 | the walk handles the first entry with the label its own name sets, then continues with that label |
| Traversal.SiblingLabel | src/index.ts:41-52 | entry i is walked with a label fixed by the inherited label and the names of entries 0..i only; nothing inside an earlier subdirectory changes it, and a later marker does not relabel it |
| Traversal.LabelAfterSnoc | src/index.ts:43-46 | the label after one more entry is that entry's update applied to the label before it |
| Traversal.UnmarkedInherits | src/index.ts:40-52 | in a subtree with no marker name, every copy gets exactly the inherited label |
| Traversal.UnmarkedEntryInherits | src/index.ts:50-52 | a single entry with no marker below it passes on the inherited label |
| Traversal.KeysFromContents | src/index.ts:54-59 | the walk's keys are the header names of exactly the store images in the tree, once each, in walk order, whatever the paths, names and labels |
| Traversal.KeysFromEntry | src/index.ts:54-59 | the same for one entry |
| Traversal.Push | src/index.ts:59-69 | the key's list gains the record at its end and no other list changes; the keys gain this key, and a new key goes last in the order |
| Traversal.AppendAllKeys | src/index.ts:59-69 | after the pushes, the map's keys are the old keys plus the key of every record pushed |
| Traversal.AppendAllConcat | src/index.ts:59-69 | pushing `a + b` is pushing `a`, then `b` |
| Traversal.GroupsInDiscoveryOrder | src/index.ts:59-69 | each key's list is its old list followed by exactly the records found for it, in discovery order |
| Traversal.PushWellFormed | src/index.ts:59-69 | a push keeps keys unique, keeps the order equal to the key set, and leaves no list empty |
| Traversal.AppendAllWellFormed | src/index.ts:59-69 | so does pushing any sequence of records |
| Traversal.NonStoreIgnored | src/index.ts:55 | a file that is not a store leaves the map unchanged |
| Traversal.OneStoreDir | src/index.ts:50-52 | a directory holding one unmarked store gives that store the directory's label |
| Traversal.TwoPositions | src/index.ts:40-73 | copies under "<a>-repositories" and "<b>-repositories" form one group, labelled a then b, in that order |
| Traversal.TwoPositionsFound | src/index.ts:40-73 | the walk of that tree finds both copies, keyed by their header names and labelled a then b |
| Traversal.DiscoverPair | src/index.ts:43-52 | two sibling entries are walked in order, each with the label after its own name |
| Traversal.DiscoverSingle | src/index.ts:43-52 | a directory of one entry is walked with the label that entry's name sets |
| Traversal.GroupPair | src/index.ts:59-69 | two records with one key, pushed onto an empty map, make a single group of both, in order |
| Traversal.PositionFiles.constructor | src/index.ts:33-36 | the new map is empty and well formed |
| Traversal.PositionFiles.Add | src/index.ts:59-69 | the map afterwards is `Push` of the map before, and it stays well formed |
| Traversal.Traverse | src/index.ts:40-73 | the map afterwards is the map before with every copy found in the entries pushed, in walk order, and it stays well formed |
| Traversal.Visit | src/index.ts:48-71 | one entry: recurse into a directory with the current label, or push a detected store; the map stays well formed |
| Traversal.DiscoverStep | src/index.ts:43-46 | one loop turn: entry i with the label it sets, then the remaining entries |
| Traversal.FindStores | src/index.ts:33-38 | the walk from the root with no label gives a fresh, well-formed map equal to folding all discovered copies into the empty map |
| Comparison.Sanitize | src/index.ts:109-116 | same length, only `[A-Za-z0-9_]`, those characters kept in place, every other character replaced by '_' |
| Comparison.SanitizeIdempotent | src/index.ts:109-116 | sanitising twice equals sanitising once |
| Comparison.SanitizeKeeps | src/index.ts:109-116 | a string of alias characters is unchanged |
| Comparison.LabelText | src/index.ts:109-113 | a label renders as its text, and a missing label as "undefined" |
| Comparison.Alias | src/index.ts:109-116 | the alias has length identity + 1 + label text, and only alias characters |
| Comparison.AliasesOfCleanLabelsDiffer | src/index.ts:109-116 | with an identity and labels made of alias characters only, different labels give different aliases |
| Comparison.AliasesCollide | src/index.ts:109-116 | labels "a b" and "a-b" give the same alias |
| Comparison.Row | src/index.ts:108 | the inner loop from j visits exactly the pairs (i, k) with j <= k < n, n - j of them |
| Comparison.PairsFrom | src/index.ts:107-108 | the loops from row i visit exactly the pairs with i <= p.0 < p.1 < n |
| Comparison.Pairs | src/index.ts:106-108 | the loops over a group of n visit exactly the pairs p.0 < p.1 < n |
| Comparison.PairsOnce | src/index.ts:107-108 | the pairs come in strictly increasing row-major order, so no pair repeats |
| Comparison.PairsFromCount | src/index.ts:107-108 | from row i there are (n-i)(n-i-1)/2 pairs |
| Comparison.PairCount | src/index.ts:107-108 | n copies give n(n-1)/2 pairs; one copy or none gives none |
| Comparison.Compare | src/index.ts:109-119 | the attach job for a pair holds both indices and both paths, each under an alias of alias characters only; copies with equal labels get equal aliases |
| Comparison.CompareEach | src/index.ts:108-119 | one comparison per pair |
| Comparison.CompareEachConcat | src/index.ts:107-108 | the comparisons for `x + y` are those for `x`, then those for `y` |
| Comparison.GroupComparisons | src/index.ts:107-119 | every comparison of a group is for that identity and for a pair first < second < n |
| Comparison.GroupComparisonsArePairs | src/index.ts:106-128 | a group's comparisons number n(n-1)/2; each is the attach job for some pair first < second < n, and no pair appears twice |
| Comparison.SameLabelStillCompared | src/index.ts:107-116 | two copies with the same label are still compared once, under identical aliases |
| Comparison.Plan | src/index.ts:106-108 | every comparison in the plan is for one of the listed identities |
| Comparison.CompareAll | src/index.ts:106-130 | the loops issue exactly `Plan` of the map, group by group in key order |
| Comparison.ComparePairs | src/index.ts:107-128 | the nested loops over one group issue exactly its comparisons, in loop order |
| Comparison.InnerStep | src/index.ts:108-116 | one inner-loop turn: pair (i, j), then the rest of the row and the later rows |

## Left out

- The prompt for the root directory and `path.resolve` (src/index.ts:21-29). The root path is
  a parameter.
- File-system I/O. The tree is a value: `opendir`, `readFile` and asynchronous iteration are
  replaced by an ordered `Entry` tree. The order of directory entries is the order of the
  sequence.
- Unreadable files and I/O errors: the source does not handle them.
- `path.join` normalisation. `Join` is plain concatenation with "/", so `..`, `.` and repeated
  separators are not normalised.
- Traversal.DetectFile, Traversal.Visit: the replacement string in `replace` is taken
  literally. JavaScript interprets `$$`, `$&`, `` $` `` and `$'` in it; an identity
  containing `$` is not modelled faithfully.
- StoreFormat.Decode, StoreFormat.GetFileName: bytes are read one character per byte, which
  is exact for ASCII. UTF-8 decoding of multi-byte sequences, including the replacement of
  invalid ones, is not modelled.
- Comparison.Sanitize: Dafny characters are Unicode scalar values, while the JavaScript
  regular expression works on UTF-16 code units. A character outside the Basic Multilingual
  Plane becomes two '_' in JavaScript and one '_' here.
- The SQL query builder (src/index.ts:77-102) and the database work: `Database(":memory:")`,
  `ATTACH`, `prepare`, `all` and the JSON functions. The plan records what the loops pass to
  the database: the two aliases and two paths of each pair.
  - The query text as written is not valid SQL. It lacks a comma after `id2` (line 81) and
    has a trailing comma before `FROM` (line 93).
  - Both `id` columns read `S1.objectId`.
  - The `ATTACH` statements (lines 118-119) leave the quote before the path unclosed.
- Comparison.CompareAll, Comparison.ComparePairs: the plan is what the loops would issue if
  every database call returned. As written, the unclosed quote makes the first `ATTACH` throw.
  Nothing catches the exception, so the run ends at the first pair of the first group with two
  or more copies.
- Console output (lines 104 and 127).
- An empty identity is kept as an ordinary key, as the code does. The code has no separate
  bucket for stores without a name.
- Copies with equal labels are still paired, and distinct labels may sanitise to the same
  alias (`Comparison.AliasesCollide`). The code does not guard against either.
