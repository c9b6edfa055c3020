# bagr in Dafny

A model of the core of bagr, a BagIt 1.0 (RFC 8493) packager written in Rust,
with proofs about that model. It covers:

- the percent-encoding of manifest paths;
- the buffered line reader and the tag-line reader that joins continuation lines;
- tag lists and the text of tag files;
- the manifest file-name grammar and the table of reserved bag-info labels;
- the rules of bag creation and update: BagIt versions, algorithm lists, the
  Payload-Oxum, hidden files, the payload and tag walks, manifest text and
  order, the `BagUpdater` builder;
- the validation result and the first step of bag validation.

Each module follows one part of the source:

| module | file | source |
|---|---|---|
| `Common`, `Errors` | common.dfy, errors.dfy | shared types; the error enum of `src/bagit/error.rs` |
| `Utf8`, `Decimal` | utf8.dfy, decimal.dfy | standard-library behaviour the code relies on: `String::from_utf8`, `{}` formatting, `str::parse::<u8>` |
| `Digest` | digest.dfy | the algorithm enum (its hash functions are opaque) |
| `Encoding` | encoding.dfy | `src/bagit/encoding.rs` |
| `LineSplit`, `Io` | lines.dfy, io.dfy | `src/bagit/io.rs` |
| `Tags` | tag.dfy | `src/bagit/tag.rs` |
| `Consts` | consts.dfy | `src/bagit/consts.rs` |
| `Version`, `Algorithms`, `Paths`, `Meta`, `Walk`, `Listing`, `Manifests`, `Bags` | version.dfy … bag.dfy | `src/bagit/bag.rs` |
| `Validate` | validate.dfy | `src/bagit/validate.rs` |

How the model represents things:

- Text is a Dafny `string`. Raw bytes, file names and read buffers are `seq<byte>`.
- A path is its sequence of components.
- Rust's `u64` is a subset type. The one sum that can overflow is written out modulo 2^64.
- Whatever comes from the file system is an input of the model:
  - a walk is the sequence of entries `WalkDir` yields;
  - a directory listing is the sequence of items `read_dir` yields;
  - a reader is the sequence of answers its `read` calls give;
  - a failing `File::create` is a parameter naming it.
- Code that changes state in place is imperative Dafny:
  - `LineReader`, `TagLineReader`, `TagList`, `BagUpdater` and `ValidationResult` are classes;
  - `add_data_prefix` and the manifest sort work on arrays;
  - the loops of the source are `while` loops.
- Each imperative member is proved against a reference function. The properties
  the source promises are then proved about those functions as lemmas.

Where the documented behaviour of the library and its code differ, the model
follows the code:

- **Manifest line order.** Lines are sorted by the unencoded `PathBuf`, component
  by component (`Paths.PathLess`). The documentation says they are sorted by the
  encoded path. `Paths.ComponentOrderExample` shows that the two orders differ:
  `a/b` sorts before `a-b`.
- **Detected algorithms.** `detect_digest_algorithms` keeps listing order and
  repetition (`Listing.DetectKeepsListingOrder`). They are documented as sorted
  and unique. A `manifest-SHA512.txt` next to `manifest-sha512.txt` gives
  `Sha512` twice, because the name conversion ignores case. An algorithm listed
  twice then writes every manifest line twice
  (`Manifests.DuplicateAlgorithmRepeats`).
- **Version parsing.** The parser accepts a leading `+` and leading zeros, as
  `str::parse::<u8>` does (`Version.ParseAcceptsSignAndZeros`).
- **The walk.** The hidden-file test and the walk filter also see the start
  directory itself:
  - a source directory with a hidden name is deleted when bagging in place;
  - it yields an empty bag when copying;
  - a bag directory named `data` has no tag files (`Walk.TagWalkOfDataDir`).
- **The temporary directory.** Its name is excluded at every depth, not only
  directly below the start directory (`Walk.TempDirPruned`).
- **The line reader.** `seen_cr` is reset on every refill. A CR that ends one
  chunk and is followed by a byte other than LF in the next chunk is dropped,
  and the two lines are joined. A lone CR at the very end of the input that
  would close an empty line yields nothing (`LineSplit.FinalCrAfterLine`).
- **The tag-line reader.** When the next physical item is an error, the line the
  reader holds back is lost (`Io.Fold`).
- **Oxum overflow.** The Payload-Oxum byte count is a `u64` sum built with
  `+=`. A release build wraps it around modulo 2^64, which is what the model
  states (`Meta.OxumWrapExample`); a debug build panics on the overflow
  instead.
- **Paths in errors.** `InvalidUtf8Path` carries the path relative to the bag
  directory (with its `data/` prefix for a payload file), not the full path.

The source file `src/bagit/digest.rs` is not part of this model, and nothing in
the modelled files fixes which algorithms exist, how they are ordered or how
they are named. The set of six (`md5`, `sha1`, `sha256`, `sha512`,
`blake2b256`, `blake2b512`), their declaration order and the ASCII
case-insensitive conversion from a name are taken from the documented design
of the library and assumed in `Digest.Rank`, `Digest.Name` and
`Digest.FromName`. The facts that rest on them are assumptions too, for
example `Algorithms.StrictlyIncreasingBound` (at most six) and
`Bags.OverridesSortedOnce` (`Md5` before `Sha256`).

## Model

| member | source | states |
|---|---|---|
| Encoding.PercentEncode | src/bagit/encoding.rs:9-30 | the find-then-loop implementation returns exactly `Encoded(value)`, the escapes of the characters in order |
| Encoding.EncodedIdentity | src/bagit/encoding.rs:10-28 | text without CR, LF or `%` is returned unchanged |
| Encoding.VerbatimPrefix | src/bagit/encoding.rs:10-12 | the text before the first special character is copied verbatim into the output |
| Encoding.EncodedAppend | src/bagit/encoding.rs:16-23 | encoding distributes over concatenation, so every character is replaced in place and in order |
| Encoding.EncodedNoCrLf | src/bagit/encoding.rs:16-23 | the output holds no CR and no LF |
| Encoding.EncodedLength | src/bagit/encoding.rs:16-23 | output length is input length plus twice the number of CR, LF and `%` characters |
| Encoding.DecodeEncoded | src/bagit/encoding.rs:4-23 | left-to-right substitution of `%0D`, `%0A`, `%25` recovers the input |
| Encoding.EncodedInjective | src/bagit/encoding.rs:16-23 | distinct paths have distinct encodings |
| Encoding.MixedExample | src/bagit/encoding.rs:38-41 | the in-file example with tabs, spaces, CR, LF, CRLF and `%` runs |
| Encoding.PlainExample | src/bagit/encoding.rs:42 | text with nothing to escape is its own encoding |
| LineSplit.BytesToString | src/bagit/io.rs:148-150 | UTF-8 decoding: `Ok` with the decoded text exactly when the bytes are well-formed, else `InvalidString` |
| LineSplit.BytesToStringEncode | src/bagit/io.rs:148-150 | the UTF-8 bytes of any text decode back to it |
| Utf8.DecodeEncode | src/bagit/io.rs:148-150 | decoding inverts encoding for every text |
| Utf8.DecodeNoCrLf | src/bagit/io.rs:148-150 | a decoded text has a CR or LF exactly when its bytes have one |
| LineSplit.Lines | src/bagit/io.rs:65-92 | the reference split the line reader is specified against: a line ends at LF, CRLF or a CR not followed by LF, the terminator is dropped, a non-empty unterminated tail is a last line, and a lone final CR gives none |
| LineSplit.LinesHaveNoTerminators | src/bagit/io.rs:83-91 | no line of the reference splitting holds a CR or LF byte |
| LineSplit.LinesUnterminated | src/bagit/io.rs:65-70 | an unterminated final segment is one line when non-empty and no line when empty |
| LineSplit.LinesFinalCr | src/bagit/io.rs:65-92 | a final lone CR ends the line before it and yields nothing after an empty line |
| LineSplit.LinesLf | src/bagit/io.rs:85-88 | an LF ends the first line and is dropped |
| LineSplit.LinesCrLf | src/bagit/io.rs:79-88 | a CRLF ends the first line and both bytes are dropped |
| LineSplit.LinesCr | src/bagit/io.rs:79-84 | a CR before a byte other than LF ends the first line on its own |
| LineSplit.LinesJoinLf | src/bagit/io.rs:76-92 | lines without terminators, each written with an LF, split back into exactly those lines |
| LineSplit.FinalCrAfterLine | src/bagit/io.rs:65-84 | after a terminated line a final CR yields nothing, a final LF yields one empty line |
| LineSplit.MixedEndings | src/bagit/io.rs:158-171 | the in-file example: CR, CRLF, LF, `\r\r` and `\n\r` give the ten expected lines, two of them empty |
| LineSplit.LeadingEmptyLine | src/bagit/io.rs:174-181 | a leading CRLF gives an empty first line; a final LF gives no extra line |
| Io.LineReader.constructor | src/bagit/io.rs:29-37 | empty buffer, nothing read, not at the end; all input pending |
| Io.LineReader.Next | src/bagit/io.rs:43-103 | after the end it returns `None` for good; a line holds no CR or LF; each read failure is returned once, in order; progress on every item; on clean input the item is the next of `MapToString(Lines(pending bytes))` |
| Io.LineReader.ScanLine | src/bagit/io.rs:73-92 | the buffer scan appends non-terminator bytes and stops after LF, after CRLF, or before the byte after a lone CR |
| Io.NotFoundClean | src/bagit/io.rs:94-98 | a buffer scanned to its end without a terminator leaves clean input behind |
| Io.TrimStart | src/bagit/io.rs:135 | the longest suffix not starting with a space or tab; only blanks are removed |
| Io.Fold | src/bagit/io.rs:118-145 | the reference fold the tag-line reader is specified against: a continuation joins the held line after one space with its leading blanks trimmed, any other line releases the held line, an error passes at once and drops the held line |
| Io.FoldIdentity | src/bagit/io.rs:118-145 | the tag reader passes lines through unchanged exactly when no line is followed by a continuation line or an error |
| Io.FoldCountsTags | src/bagit/io.rs:118-145 | without errors it yields the held line plus one line per line that does not continue a held line, all of them lines |
| Io.FoldLength | src/bagit/io.rs:118-145 | never more items than the held line plus the lines read |
| Io.FoldErrors | src/bagit/io.rs:122-123 | every error of the line reader is passed on, in order, and no other |
| Io.FoldNoCrLf | src/bagit/io.rs:131-141 | joined tag lines hold no CR or LF |
| Io.FoldJoin | src/bagit/io.rs:132-135 | a continuation line is appended after one space with its leading blanks removed |
| Io.FoldTwoContinuations | src/bagit/io.rs:131-141 | a tag line with two continuation lines is yielded as one joined line after the held one |
| Io.MultiLineTagsExample | src/bagit/io.rs:183-200 | the in-file example, with a blank continuation line adding a single space |
| Io.TagLineReader.constructor | src/bagit/io.rs:107-112 | a fresh line reader over the input and no held line |
| Io.TagLineReader.Next | src/bagit/io.rs:118-145 | tag lines hold no CR or LF; read errors pass through once, in order; on clean input the item is the next of `Fold(held line, line reader items)` |
| Tags.TagList.constructor | src/bagit/tag.rs:51-53 | the new list is empty |
| Tags.TagList.WithCapacity | src/bagit/tag.rs:55-59 | the new list is empty whatever the capacity |
| Tags.TagList.AddTag | src/bagit/tag.rs:61-63 | exactly one `Tag(label, value)`, stored verbatim, is appended; earlier tags are unchanged |
| Tags.TagList.RemoveTags | src/bagit/tag.rs:65-68 | the tags become `Without(old tags, label)` |
| Tags.WithoutMembers | src/bagit/tag.rs:67 | a tag is kept exactly when it was there and its label differs |
| Tags.WithoutAppend | src/bagit/tag.rs:67 | removal distributes over concatenation, so the kept tags keep their relative order |
| Tags.WithoutCount | src/bagit/tag.rs:67 | kept tags keep their multiplicity; tags with the label have none |
| Tags.WithoutIdempotent | src/bagit/tag.rs:67 | removing a label twice is removing it once |
| Tags.WithoutIdentity | src/bagit/tag.rs:67 | the list is unchanged exactly when no tag has the label |
| Tags.WithoutLength | src/bagit/tag.rs:67 | removal never lengthens the list |
| Tags.AddThenRemove | src/bagit/tag.rs:61-68 | adding a tag then removing its label is just removing the label |
| Tags.RemoveIsCaseSensitive | src/bagit/tag.rs:67 | labels that differ only in case are not removed |
| Tags.WriteTagFile | src/bagit/tag.rs:23-37 | a failed create gives `IoCreate` and no text; a failed write gives `IoWrite` after the earlier lines; otherwise `label: value` plus LF per tag, in order |
| Tags.TagLineText | src/bagit/tag.rs:32 | the `"{}: {}"` text of one tag: label, colon, space, value |
| Tags.TagFileText | src/bagit/tag.rs:30-34 | the reference file text: one tag line and LF per tag, in list order |
| Tags.TagFileTextAppend | src/bagit/tag.rs:30-34 | the file text is the concatenation of the tag lines |
| Tags.TagLineNoCrLf | src/bagit/tag.rs:32 | the line of a writable tag holds no CR or LF and is not a continuation line |
| Tags.TagFileReadsBack | src/bagit/tag.rs:30-34 | the written tag file, split, decoded and folded by the tag reader, is exactly one line per tag, in order |
| Consts.ManifestCapture | src/bagit/consts.rs:6-9 | a match is a whole name `<prefix>-<token>.txt` with a non-empty alphanumeric token, captured |
| Consts.CaptureOfManifestName | src/bagit/consts.rs:6-9 | every name of that form is matched, with its token as capture |
| Consts.AlgorithmManifestMatches | src/bagit/consts.rs:6-9 | the manifest name of each algorithm matches, capturing the algorithm's name |
| Consts.MatchersDisjoint | src/bagit/consts.rs:6-9 | no name matches both the payload and the tag manifest grammar |
| Consts.MatcherExamples | src/bagit/consts.rs:6-9 | matching is anchored and case-sensitive and rejects empty or punctuated tokens |
| Consts.Repeatable | src/bagit/consts.rs:59-78 | lookup in the table: `None` exactly for an absent key, else the key's flag |
| Consts.RepeatableTableShape | src/bagit/consts.rs:61-78 | sixteen distinct labels, ten repeatable and six not, in the listed order |
| Consts.ReservedLabelsInTable | src/bagit/consts.rs:42-78 | each reserved label constant, lowercased, is at its own position in the table and nowhere else |
| Consts.RepeatableKeysLowercase | src/bagit/consts.rs:59-78 | all table keys are lowercase |
| Consts.GeneratedLabelsNotRepeatable | src/bagit/consts.rs:61-64 | Bagging-Date, Payload-Oxum and Bag-Software-Agent may not repeat |
| Consts.Defaults | src/bagit/consts.rs:14-17 | the default version displays as `1.0` and the default algorithm is `sha512` |
| Version.Display | src/bagit/bag.rs:170-174 | major digits, one `.`, minor digits |
| Version.SplitOnce | src/bagit/bag.rs:188 | `None` exactly when the separator is absent, else the text around its first occurrence |
| Version.Parse | src/bagit/bag.rs:184-202 | every error is `InvalidBagItVersion` with the whole input; the result is `Ok` exactly when both sides of the first `.` parse as `u8`, and then it is the version of those two numbers |
| Version.ParseDisplay | src/bagit/bag.rs:170-202 | every version survives display then parse |
| Version.DisplayInjective | src/bagit/bag.rs:170-174 | distinct versions display differently |
| Version.ParseRejectsThreeParts | src/bagit/bag.rs:188-194 | `1.0.0` is rejected |
| Version.ParseRejectsOutOfRange | src/bagit/bag.rs:189-191 | `256.0` is rejected |
| Version.ParseRejectsMissingPart | src/bagit/bag.rs:188-200 | a missing `.` or an empty side is rejected |
| Version.ParseAcceptsSignAndZeros | src/bagit/bag.rs:189-194 | `+1.00` parses as version 1.0 |
| Decimal.Format | src/bagit/bag.rs:172 | non-empty decimal digits, no leading zero, one digit exactly below 10 |
| Decimal.ValueFormat | src/bagit/bag.rs:172 | the formatted digits denote the number |
| Decimal.FormatInjective | src/bagit/bag.rs:172 | distinct numbers format differently |
| Decimal.ParseU8 | src/bagit/bag.rs:189-194 | `Some` exactly for an optional `+` followed by at least one ASCII digit denoting at most 255, and the value is the number the digits denote |
| Decimal.ParseFormatU8 | src/bagit/bag.rs:189-194 | every `u8` survives formatting and parsing |
| Decimal.ParseU8RejectsOutOfRange | src/bagit/bag.rs:189-191 | 256 is not a `u8` |
| Decimal.ParseU8AcceptsSignAndZeros | src/bagit/bag.rs:189-194 | `+1` and `00` are accepted |
| Digest.RankInjective | src/bagit/bag.rs:634 | the order of algorithms is total |
| Digest.Name | src/bagit/bag.rs:517 | every algorithm has a non-empty name |
| Digest.FromName | src/bagit/bag.rs:590 | a conversion succeeds exactly when the lowercased token is an algorithm's name |
| Digest.FromNameOfName | src/bagit/bag.rs:588-591 | each algorithm's name converts back to it |
| Algorithms.SortDedup | src/bagit/bag.rs:289-290 | sort then dedup gives a strictly increasing list with the same elements as the input |
| Algorithms.DefaultedAlgorithms | src/bagit/bag.rs:629-638 | `[Sha512]` for no input, else strictly increasing with the input's elements |
| Algorithms.DefaultIsSha512 | src/bagit/bag.rs:631 | the default list is `[Sha512]` |
| Algorithms.StrictlyIncreasingUnique | src/bagit/bag.rs:633-635 | a strictly increasing list is determined by its elements |
| Algorithms.DefaultedUnique | src/bagit/bag.rs:629-638 | inputs with the same elements give the same list, whatever their order or repetition |
| Algorithms.StrictlyIncreasingBound | src/bagit/bag.rs:634-635 | a deduplicated list holds at most six algorithms |
| Paths.IsHiddenFile | src/bagit/bag.rs:664-668 | the definition of a hidden name: valid UTF-8, first character `.`, and neither `.` nor `..` |
| Paths.HiddenFileBytes | src/bagit/bag.rs:664-668 | hidden exactly when UTF-8, starting with `.`, and neither `.` nor `..` |
| Paths.HiddenFileExamples | src/bagit/bag.rs:664-668 | `.git` and `...` are hidden; `.`, `..`, `a.` and a non-UTF-8 dot name are not |
| Paths.PathLess | src/bagit/bag.rs:524 | the `PathBuf` order, lexicographic over components compared byte-wise; its contract states that a directory sorts before every path below it |
| Paths.PathLessIrreflexive | src/bagit/bag.rs:524 | the path order is irreflexive |
| Paths.PathLessTransitive | src/bagit/bag.rs:524 | the path order is transitive |
| Paths.PathLessTotal | src/bagit/bag.rs:524 | any two distinct paths are ordered |
| Paths.PathLessAsymmetric | src/bagit/bag.rs:524 | the path order is asymmetric |
| Paths.PathLeTotal | src/bagit/bag.rs:524 | the comparison the sort uses is total |
| Paths.PathLeTransitive | src/bagit/bag.rs:524 | the comparison the sort uses is transitive |
| Paths.ComponentOrderExample | src/bagit/bag.rs:524 | component order differs from printed order: `a/b` before `a-b` |
| Paths.ToStrEncodedPath | src/bagit/bag.rs:527 | a path of UTF-8 names prints as the names joined by `/` |
| Meta.AddDataPrefix | src/bagit/bag.rs:428-434 | every path becomes `data/<path>` in place; sizes and digests are kept |
| Meta.DataPrefixToStr | src/bagit/bag.rs:428-434 | a prefixed path prints as `data/` then the old path, and is UTF-8 exactly when the old path is |
| Meta.DataNameIsData | src/bagit/consts.rs:33 | the prefix component is the bytes of `data` |
| Meta.BuildPayloadOxum | src/bagit/bag.rs:640-647 | the text is the size total modulo 2^64, a `.`, then the file count |
| Meta.OxumText | src/bagit/bag.rs:646 | the `{sum}.{count}` text: the decimal byte total, a dot, the decimal file count |
| Meta.OxumReadsBack | src/bagit/bag.rs:646 | the Oxum splits at its `.` into the two numbers, which read back |
| Meta.OxumInjective | src/bagit/bag.rs:646 | distinct totals or counts give distinct texts |
| Meta.OxumWrapExample | src/bagit/bag.rs:642-645 | two files of 2^63 bytes report a total of 0 |
| Walk.FirstRejected | src/bagit/bag.rs:388-392 | the position of the first reachable entry of another type, if any |
| Walk.MoveIntoDir | src/bagit/bag.rs:320-411 | without a rejected entry: the recorded files' metas, the deletions and the swept directories; otherwise `UnsupportedFile` with its full path, only the earlier deletions, no sweep |
| Walk.WalkLoop | src/bagit/bag.rs:339-393 | the loop's metas, deletions and remembered directories, up to the first rejected entry |
| Walk.Sweep | src/bagit/bag.rs:395-408 | every remembered directory except the start directory is removed; nothing when copying |
| Walk.SweepLoop | src/bagit/bag.rs:396-408 | the loop removes exactly the non-root remembered directories, in order |
| Walk.DanglingIsNonRoot | src/bagit/bag.rs:396-399 | the swept directories are the seen ones other than the start directory |
| Walk.Keep | src/bagit/bag.rs:106-112 | the three `filter_entry` closures: the bagging one drops the temp name and, when copying without hidden files, hidden names; the payload one keeps everything; the tag one (bag.rs:439-446) drops `data` and UTF-8 tag-manifest names |
| Walk.Classify | src/bagit/bag.rs:338-392 | what the loop does with one entry of the unfiltered walk: skipped below a pruned or deleted ancestor or when the filter drops it, deleted when hidden and hidden files are excluded, otherwise recorded, remembered or rejected by its file type |
| Walk.SelectMembers | src/bagit/bag.rs:339-393 | an entry gets an action exactly when it is in the walk and is classified so |
| Walk.CalculateDigests | src/bagit/bag.rs:451-485 | the metas of the regular files the filter lets through, in walk order |
| Walk.RecordedEntries | src/bagit/bag.rs:339-383 | a recorded entry is a regular file kept by the filter and, without hidden files, hidden nowhere on its way |
| Walk.RecordedWhenReachable | src/bagit/bag.rs:356-383 | every reachable regular file is recorded |
| Walk.TempDirPruned | src/bagit/bag.rs:106-112 | the temporary directory and everything below it are skipped |
| Walk.CopyModeNeverDeletes | src/bagit/bag.rs:106-112 | copying deletes nothing, and a hidden name on the way skips the entry |
| Walk.InPlaceDeletesHidden | src/bagit/bag.rs:342-354 | in place, a reachable hidden entry of any type is deleted and not recorded |
| Walk.IncludeHiddenNeverDeletes | src/bagit/bag.rs:342 | with hidden files included nothing is deleted |
| Walk.OtherTypeRejected | src/bagit/bag.rs:388-392 | a reachable entry that is neither file nor directory is rejected |
| Walk.TagFilterRule | src/bagit/bag.rs:439-446 | the tag walk skips `data` and tag manifest names and lets non-UTF-8 names through |
| Walk.TagWalkOfDataDir | src/bagit/bag.rs:439-446 | a bag directory named `data` yields no tag files |
| Walk.TempNameInjective | src/bagit/bag.rs:95 | different start times give different temporary names |
| Listing.FirstFailure | src/bagit/bag.rs:609-613 | the position of the first listing error or failed file-type query, if any |
| Listing.MatchOf | src/bagit/bag.rs:611-619 | an item matches exactly when it is a file with a UTF-8 name matching the grammar; the capture is kept |
| Listing.MatchesMembers | src/bagit/bag.rs:611-619 | the matches are exactly the matching items' matches |
| Listing.ForMatchingFiles | src/bagit/bag.rs:602-625 | `IoReadDir` if the directory does not open; else the matches in listing order up to the first failing item and its error |
| Listing.ConvertEach | src/bagit/bag.rs:588-594 | the supported captures become algorithms, in order |
| Listing.DetectDigestAlgorithms | src/bagit/bag.rs:585-597 | the scan's error, or the algorithms of the payload manifests found, in listing order |
| Listing.DetectedHasManifest | src/bagit/bag.rs:585-597 | each detected algorithm is named, up to case, by a listed payload manifest file |
| Listing.ManifestFileDetected | src/bagit/bag.rs:585-597 | each listed payload manifest of a supported algorithm contributes it |
| Listing.AlgorithmManifestDetected | src/bagit/bag.rs:588-591 | `manifest-<name>.txt` is detected as its algorithm |
| Listing.DetectKeepsListingOrder | src/bagit/bag.rs:585-597 | two manifests give two algorithms in listing order, repeated if they name the same one |
| Listing.DeleteMatchingFiles | src/bagit/bag.rs:574-583 | the matched files are removed in listing order; removal failures do not change the result |
| Listing.RemoveEach | src/bagit/bag.rs:575-582 | one removal per matched file, in order |
| Listing.DeletionsDisjoint | src/bagit/bag.rs:564-572 | deleting payload manifests never removes a tag manifest |
| Manifests.SortedByPath | src/bagit/bag.rs:524 | the reference sort keeps every entry: same length and multiset |
| Manifests.SortedByPathSorted | src/bagit/bag.rs:524 | the reference sort is ordered by path and a permutation |
| Manifests.SortedUnique | src/bagit/bag.rs:523-524 | two sorted lists of the same entries are equal when paths identify entries |
| Manifests.SortDeterministic | src/bagit/bag.rs:523-524 | the sorted list does not depend on the walk order |
| Manifests.SortByPath | src/bagit/bag.rs:524 | the array is replaced by its sorted order |
| Manifests.ManifestNameMatches | src/bagit/bag.rs:517 | each written manifest name matches the grammar and names its algorithm again |
| Manifests.FirstUnprintable | src/bagit/bag.rs:526-529 | the position of the first path that is not UTF-8, if any |
| Manifests.WriteManifests | src/bagit/bag.rs:506-546 | the first failing create and the files created so far; or the sorted entries and, up to the first non-UTF-8 path with its `InvalidUtf8Path`, one line per entry and algorithm occurrence |
| Manifests.WriteLines | src/bagit/bag.rs:526-543 | the manifests hold the lines of the sorted entries up to the first non-UTF-8 path |
| Manifests.WriteEntry | src/bagit/bag.rs:533-542 | each algorithm's manifest gains its digest line once per occurrence of the algorithm |
| Manifests.ManifestJoined | src/bagit/bag.rs:541 | a manifest is its entry lines, each ended by an LF |
| Manifests.EntryLineNoCrLf | src/bagit/bag.rs:530-541 | an entry line holds no CR or LF, because the path is encoded |
| Manifests.ManifestReadsBack | src/bagit/bag.rs:526-543 | a manifest splits back into exactly one line per entry, in sorted order |
| Manifests.EntryLineFields | src/bagit/bag.rs:541 | a line is the digest, two spaces, then text that percent-decodes to the path |
| Manifests.DuplicateAlgorithmRepeats | src/bagit/bag.rs:533-542 | an algorithm listed twice gets every line twice |
| Bags.SoftwareAgent | src/bagit/bag.rs:649-651 | the `bagr v{} <{}>` text for a crate version and the source URL |
| Bags.SoftwareAgentVersion | src/bagit/bag.rs:649-651 | the agent is `bagr v`, the version, then ` <url>` |
| Bags.SoftwareAgentInjective | src/bagit/bag.rs:649-651 | different versions give different agent texts |
| Bags.IsChoice | src/bagit/bag.rs:285-292 | the algorithm choice of `finalize`: the bag's own when payload manifests are kept or none were given, otherwise the given ones strictly increasing with the same elements |
| Bags.ChoiceUnique | src/bagit/bag.rs:285-292 | the choice depends on the given algorithms only as a set |
| Bags.UpdatePayloadManifests | src/bagit/bag.rs:414-425 | the manifests written are those of the `data/`-prefixed files below `data`; on success the sorted entries are returned |
| Bags.UpdateTagManifests | src/bagit/bag.rs:437-448 | the tag manifests written are those of the top-level walk outside `data` and the tag manifests |
| Bags.BagUpdater.constructor | src/bagit/bag.rs:237-245 | recalculate on, no algorithms, no date, no agent |
| Bags.BagUpdater.WithAlgorithm | src/bagit/bag.rs:248-251 | one algorithm appended; nothing else changes |
| Bags.BagUpdater.WithAlgorithms | src/bagit/bag.rs:255-259 | the list is replaced; nothing else changes |
| Bags.BagUpdater.WithBaggingDate | src/bagit/bag.rs:262-265 | the date is set; nothing else changes |
| Bags.BagUpdater.WithSoftwareAgent | src/bagit/bag.rs:268-271 | the agent is set; nothing else changes |
| Bags.BagUpdater.RecalculatePayloadManifests | src/bagit/bag.rs:276-279 | the flag is set; nothing else changes |
| Bags.BagUpdater.Finalize | src/bagit/bag.rs:282-307 | the bag's algorithms when recalculation is off or none were given, else the given ones sorted and deduplicated in place; the date and agent defaults |
| Bags.KeepingManifestsKeepsAlgorithms | src/bagit/bag.rs:285-287 | without recalculation the bag's algorithms are kept whatever was given |
| Bags.EmptyOverrideReusesAlgorithms | src/bagit/bag.rs:255-292 | an empty `with_algorithms` after `with_algorithm` falls back to the bag's algorithms |
| Bags.OverridesSortedOnce | src/bagit/bag.rs:289-291 | `[Sha256, Md5, Sha256]` is used as `[Md5, Sha256]` |
| Validate.ValidationResult.NewValid | src/bagit/validate.rs:104-109 | verdict `Valid`, no issues |
| Validate.ValidationResult.NewComplete | src/bagit/validate.rs:111-116 | verdict `Complete`, no issues |
| Validate.ValidationResult.Invalid | src/bagit/validate.rs:118-120 | verdict `Invalid`, issues unchanged |
| Validate.ValidationResult.Error | src/bagit/validate.rs:122-124 | one `Error` issue appended, verdict unchanged |
| Validate.ValidationResult.Warn | src/bagit/validate.rs:126-128 | one `Warn` issue appended, verdict unchanged |
| Validate.ValidationResult.Perform | src/bagit/validate.rs:118-128 | any series of calls leaves the state `Run` describes |
| Validate.RunOutcome | src/bagit/validate.rs:118-128 | the verdict is `Invalid` exactly when `invalid` was called, else unchanged; issues only grow, in call order |
| Validate.InvalidIsFinal | src/bagit/validate.rs:103-129 | once `Invalid`, no series of calls changes the verdict back |
| Validate.Reported | src/bagit/validate.rs:158-188 | the errors of reading `bagit.txt` that are recorded as issues: not found, permission denied, a bad tag line, a missing tag, a bad version, a bad encoding |
| Validate.DeclarationMessage | src/bagit/validate.rs:158-190 | an issue text exists exactly for the reported errors |
| Validate.TagLineMessageInjective | src/bagit/validate.rs:167-170 | the issue identifies the tag line number and details |
| Validate.ValueMessagesInjective | src/bagit/validate.rs:171-188 | the issue identifies the missing tag, the bad version or the bad encoding, and the last two differ |
| Validate.ReadAndValidateDeclaration | src/bagit/validate.rs:147-191 | a declaration is passed on; a reported error marks the result invalid, appends one `Error` issue, gives `Ok(None)`; any other error is returned and the result untouched |
| Validate.ValidateBag | src/bagit/validate.rs:38-101 | `Ok` exactly when the declaration was read or its error is reported; starts `Valid` or `Complete`; ends `Invalid` with one issue on a reported error |
| Validate.MissingDeclaration | src/bagit/validate.rs:161 | a missing `bagit.txt` gives `Invalid` with the one issue `bagit.txt does not exist` |

## Left out

- File-system effects are not modelled. This covers `WalkDir`, `fs::rename`, `fs::copy`, `fs::remove_*`, `create_dir_all`, `File::open`, `io::copy` and `metadata`. Walks and listings are inputs, and removals come out as lists of paths.
- Walk.MoveIntoDir: the I/O errors are not modelled. These are `WalkFile`, `IoRead`, `IoCreate`, `IoMove` and `IoCopy`, and a sweep that fails with a kind other than `NotFound`. The contract states the outcome of a run in which every file-system call succeeds.
- Manifests.WriteManifests: a failing `writeln!` (`IoGeneral`) is not modelled. The source panics on a missing digest, and the precondition excludes that case.
- `BufWriter` flushing errors are not modelled. The source drops them silently.
- Digest.Rank, Digest.Name, Digest.FromName: the algorithm set, its order and its names are assumed from the documented design, because `src/bagit/digest.rs`, which defines them, is not part of this model.
- Meta.BuildPayloadOxum: states the release-build wrap-around of the `u64` sum; the panic a debug build raises on overflow is not modelled.
- Digest computation is not modelled. `MultiDigestWriter` lives in `src/bagit/digest.rs`, which is not part of this model, so every walk entry carries its digests as data.
- The clock is not modelled. `current_date_str` and `epoch_seconds` are parameters: `today`, and the seconds behind `Walk.TempName`.
- Logging is not modelled. It has no effect on results.
- `BagInfo`, `BagDeclaration`, `read_bag_declaration`, `read_bag_info`, `write_bag_declaration` and `write_bag_info` are not defined in the modelled files. Validation takes the outcome of reading the declaration as a parameter and leaves the declaration abstract.
- Bags.BagUpdater.Finalize: stops at the decisions, without the writes that follow. These decisions are the algorithms, the date, the agent and whether payload manifests are rebuilt. The writes are modelled as separate operations, not composed into one file-system state: `Listing.DeleteMatchingFiles`, `Bags.UpdatePayloadManifests`, `Meta.BuildPayloadOxum`, `Tags.WriteTagFile` and `Bags.UpdateTagManifests`.
- `create_bag` and `open_bag` are modelled through their parts rather than as whole operations:
  - the algorithm list (`Algorithms.DefaultedAlgorithms`);
  - the walk predicate (`Walk.CreateConfig`);
  - `Walk.MoveIntoDir`, `Meta.AddDataPrefix`, `Manifests.WriteManifests` and `Listing.DetectDigestAlgorithms`.
- `Bag::new` and its accessors are not modelled as operations. `Bags.Bag` keeps only the directory and the algorithms.
- Io.LineReader.Next: the contract pins the items only on clean input. Clean input has no read failure ahead, and no chunk that ends in CR is followed by a chunk that does not start with LF. On other input only the general guarantees are stated. The body follows the source there too: it drops such a CR and joins the lines. The reader is not independent of chunk boundaries, so no such claim is made.
- Io.TagLineReader.Next: the contract pins the items only on clean input, as for the line reader.
- `sort_by` is a library call. It is specified by its result, a stable sort by path (`Manifests.SortedByPath`), not by its algorithm.
- The Windows branch of `convert_path_separator` is not modelled. It is platform-specific; the model uses the identity of other platforms.
- The tag-line `label: value` parsing and manifest reading are not modelled, because they are not in the modelled code.
- The command-line program (`src/bin/bagr.rs`), the re-exports (`src/bagit/mod.rs`), the CLI fixtures of `tests/cli_tests.rs` and the `Display` texts of `src/bagit/error.rs` are not modelled.
