# Transcript comparison for the Amazon Transcribe evaluation

This project models, in Dafny, the text-processing core of a small Python
tool that compares Amazon Transcribe transcripts with reference transcripts.
It also proves properties of that model.

- **Text normaliser** (`Normalizer`): the `clean_text` pipeline and its
  steps. The pipeline turns hyphens into spaces, replaces words from a table
  (twice), strips `string.punctuation`, drops listed words, collapses
  repeated words and, optionally, lower-cases. The module also builds the
  `en_short_forms` contraction table.
- **Alignment** (`Matcher`, `Alignment`):
  - `tokenize`/`untokenize`.
  - `equalize`, which walks `difflib.SequenceMatcher.get_matching_blocks()`
    and pads every unmatched token on the other side with an underscore run
    of the same length.
  - The matching blocks themselves come from a model of difflib's greedy
    longest-match recursion, with no junk.
- **Line layout** (`Layout`): `insert_newlines`, a greedy chunker with a
  back-off window, and the rows `show_comparison` builds from the chunks of
  the two equalized texts.
- **Metrics** (`Metrics`): `weighted_wer`, `change_to_seconds` (an `%M:%S`
  `strptime`) and `compare_words`.
- **Job naming** (`JobNaming`): the pure expressions inside the Transcribe
  job driver. These are the `check_assertions` validator, the cloud folder
  name, the job name, the download file name, the CSV id, and the
  extension test of `is_transcribable_file`.

`Text` holds the ASCII versions of the Python string primitives the code
uses: `str.split()`, `str.join`, `str.strip`, `str.lower`, `str.split(sep)`
and the `\w`/`\s` character classes. `Results` holds `Option` and `Result`.
Python exceptions are modelled as `Err` values. A missing pandas value is
modelled as `None`.

The model follows the code where the code and its documented behaviour
differ:

- A cased `clean_text("I'm happy happy", {"i'm": "i am"}, [])` gives
  `"i am happy"`, not `"I am happy"`. The replacement value is inserted
  exactly as the table writes it (`Normalizer.CleanTextExample`).
- The output-folder check `re.match(r"^[a-zA-Z]+/$", f)` also accepts a
  folder followed by one newline, because `$` matches before a final `"\n"`.
- `%S` in `strptime` matches `60` and `61`, which `datetime` then rejects.
  So `"1:60"` raises, and the error differs from the one for `"1:75"`.

## Model

| member | source | states |
|---|---|---|
| Normalizer.EnShortForms | utilities.py:30-47 | the nested loops map every pronoun+short form (e.g. "i'm") to pronoun+" "+full form ("i am"); every key is such a contraction; the table has 8*5 = 40 entries; every value is trimmed and free of punctuation |
| Normalizer.ContractionInjective | utilities.py:41-46 | no two (pronoun, short form) pairs give the same key, so no loop iteration overwrites an earlier entry |
| Normalizer.TableStep | utilities.py:43-46 | one inner-loop step adds a key not yet present and keeps the table equal to the entries written so far |
| Normalizer.ReplaceWords | utilities.py:79-93 | the loop that appends each word, or its replacement, plus a space and then strips computes `ReplacedWords`: the stripped single-space join of the split words with each word whose lower case is a key replaced |
| Normalizer.ReplacedWordsJoin | utilities.py:89-93 | when every replacement value is trimmed, the final `strip` changes nothing: the result is exactly the single-space join of the (replaced) words |
| Normalizer.ReplacedWordsEmptyTable | utilities.py:79-93 | with an empty table the result is the input's words joined by single spaces: whitespace runs collapse and the ends are trimmed |
| Normalizer.RemovePunctuation | utilities.py:50-60 | the result holds no character of `string.punctuation` |
| Normalizer.RemovePunctuationKeeps | utilities.py:58-59 | every character outside `string.punctuation` keeps its number of occurrences |
| Normalizer.RemovePunctuationAppend | utilities.py:58-59 | the translation works character by character: it distributes over concatenation |
| Normalizer.RemovePunctuationClean | utilities.py:50-60 | a text with no punctuation comes back unchanged |
| Normalizer.KeptAppend | utilities.py:72-74 | the filter keeps words in their order: filtering a concatenation is concatenating the filtered parts |
| Normalizer.KeptAll | utilities.py:72-74 | when no word's lower case is listed, every word is kept |
| Normalizer.RemoveWordsWords | utilities.py:63-76 | the words of the result are exactly the input's words whose lower case is not listed, in the original order |
| Normalizer.RemoveWordsIdempotent | utilities.py:63-76 | removing the same words twice is the same as removing them once |
| Normalizer.RemoveConsecutiveDuplicatesDeletes | utilities.py:104-105 | the substitution only deletes: the result is a subsequence of the input, i.e. the input with some characters removed and the rest kept in order |
| Normalizer.RemoveConsecutiveDuplicatesChars | utilities.py:104-105 | every character of the result occurs in the input |
| Normalizer.RcdAtWord | utilities.py:104-105 | at a whole word, the regex keeps the word and deletes the following repeats of it (separator plus the same word ignoring case) |
| Normalizer.SkipRepeatsStep | utilities.py:104 | one more repeat is absorbed exactly when the next word equals the run's first word ignoring case |
| Normalizer.RemoveConsecutiveDuplicatesWords | utilities.py:96-105 | on single-spaced `\w+` words, the result keeps the first word of every maximal run of words equal ignoring case (in its own case) and drops the rest of the run |
| Normalizer.ReplacedWordsNoPunctuation | utilities.py:79-93 | replacing words keeps a punctuation-free text punctuation-free when no replacement value has punctuation |
| Normalizer.RemoveWordsNoPunctuation | utilities.py:63-76 | removing words keeps a punctuation-free text punctuation-free |
| Normalizer.RcdNoPunctuation | utilities.py:96-105 | collapsing repeats keeps a punctuation-free text punctuation-free |
| Normalizer.CleanTextNoPunctuation | utilities.py:108-130 | when no replacement value holds punctuation, the cleaned text holds no `string.punctuation` character (hyphens included); uncased, it holds no upper-case letter either |
| Normalizer.ExampleFirstPass | utilities.py:123 | the first replacement pass turns "I'm happy happy" into "i am happy happy" |
| Normalizer.ExampleLaterPasses | utilities.py:124-126 | punctuation removal, the second replacement pass and the empty removal list leave "i am happy happy" alone |
| Normalizer.ExampleCollapse | utilities.py:127 | collapsing repeats turns "i am happy happy" into "i am happy" |
| Normalizer.CleanTextExample | utilities.py:108-130 | cased `clean_text("I'm happy happy", {"i'm": "i am"}, [])` is "i am happy", with the replacement's lower case kept |
| Text.SplitJoin | utilities.py:89 | `str.split()` of words joined by single spaces gives the words back |
| Text.JoinSplitOn | transcribing_job_utils.py:24 | `sep.join(s.split(sep)) == s` |
| Text.SplitOnCount | transcribing_job_utils.py:24 | `s.split(sep)` has one more piece than `s` has separators |
| Matcher.RunLenIsRun | utilities.py:206 | the run measured at (i, j) is an equal run and cannot be extended inside the window |
| Matcher.RunLenMaximal | utilities.py:206 | every equal run starting at (i, j) inside the window is at most the measured length |
| Matcher.ScanVisit | utilities.py:206 | visiting one more (i, j) keeps the best block so far the longest, earliest such run |
| Matcher.Longest | utilities.py:206 | `find_longest_match` returns a longest equal run in the window, the earliest among the longest, or a zero-size block at the window's start when there is none |
| Matcher.BlocksAround | utilities.py:206 | the blocks of the left and right sub-windows, put around the longest match, are equal runs in the window in increasing order |
| Matcher.Blocks | utilities.py:206 | the recursion yields non-empty equal runs inside the window, increasing in both lists |
| Matcher.MergeKeeps | utilities.py:206 | merging adjacent blocks keeps non-empty equal runs in increasing order and keeps the first block's start |
| Matcher.MatchingBlocksValid | utilities.py:206 | `get_matching_blocks` yields equal runs, increasing in both lists, closed by the sentinel (len(a), len(b), 0), and every block before the sentinel is non-empty |
| Matcher.MatchingBlocksSelf | utilities.py:206 | matching a list with itself gives one block covering it (plus the sentinel) |
| Alignment.Tokenize | utilities.py:133-141 | `re.split(r"\s+", text)` gives at least one token and no token holds whitespace |
| Alignment.TokenizeJoin | utilities.py:133-152 | tokenizing single-spaced words gives the words back: `tokenize(untokenize(ws)) == ws` |
| Alignment.EqualizeTokens | utilities.py:203-217 | the loop over the matching blocks builds `res1`/`res2` as the left and right texts of the aligned columns |
| Alignment.AppendBlock | utilities.py:207-216 | one iteration appends the a-gap, the underscores for the b-gap and the match to `res1`, and symmetrically to `res2` |
| Alignment.AppendUnderscores | utilities.py:208-209 | the inner loop appends `"_" * len(t)` for every token `t` of the gap |
| Alignment.Equalize | utilities.py:192-218 | `equalize` returns the untokenized left and right texts of the columns built from the tokens of both inputs and their matching blocks |
| Alignment.ColumnsFaithful | utilities.py:203-217 | for any valid block list, the left side's own tokens are exactly `l1` and the right side's are exactly `l2`, in order; each column is a matched pair of equal tokens or a token facing underscores of the same length |
| Alignment.ColumnsAligned | utilities.py:192-218 | for any valid block list and space-free tokens, the two outputs have the same length and spaces at the same indices |
| Alignment.EqualizedAligned | utilities.py:192-218 | the two strings `equalize` returns have the same length and spaces at exactly the same indices |
| Alignment.JoinAligned | utilities.py:152 | joining pairwise equal-length space-free tokens with single spaces gives strings of equal length with spaces at the same places |
| Alignment.EqualizedSelf | utilities.py:192-218 | `equalize(s, s)` returns `s`'s tokens re-joined by single spaces on both sides |
| Alignment.EqualizedSingleSpaced | utilities.py:192-218 | for a single-spaced `s` with no whitespace at the ends, `equalize(s, s) == (s, s)` |
| Layout.BackOff | utilities.py:236-237 | the back-off stops at the first space found going left, or at the floor `Floor(every, window)` (`every - window`, or `every` when `window < 0`, where the loop condition is false from the start), and skips no space |
| Layout.InsertNewlines | utilities.py:221-243 | the while loop returns exactly the chunks of `Chunks` |
| Layout.ChunksConcat | utilities.py:221-243 | the chunks concatenate back to the input |
| Layout.ChunksShape | utilities.py:233-241 | every chunk is non-empty and at most `every` long; every chunk but the last is at least `Floor(every, window)` long (`every - window`, or `every` when `window < 0`) and ends in a space or is exactly that long |
| Layout.CutStalls | utilities.py:234-241 | with `window == every` and no space in the first `every` characters the cut is 0: the loop appends an empty chunk and never shrinks the string |
| Layout.ChunksSameShape | utilities.py:221-243 | two texts with spaces at the same indices break into the same number of chunks with pairwise equal lengths |
| Layout.RemoveUnderscores | utilities.py:272-273 | `replace("_", "")` deletes exactly the underscores: the result is a subsequence of the chunk with no underscore, every other character occurs as often as in the chunk, and a chunk without underscores is unchanged |
| Layout.CollapseSpaces | utilities.py:272-273 | `re.sub(" +", " ", ...)` turns each run of spaces into one space: the result is a subsequence of its input that starts with the same character, has no two adjacent spaces, keeps every non-space character as often as the input has it, and is shorter than the input by exactly the number of spaces that follow a space; so it is the input itself when it had no two adjacent spaces |
| Layout.CollapseSpacesExample | utilities.py:272-273 | `re.sub(" +", " ", "a  b")` is `"a b"` |
| Layout.Compacted | utilities.py:272-273 | the compact variant's text is a subsequence of the chunk, holds no underscore and no two adjacent spaces, keeps every character other than `_` and space as often as the chunk has it, and is shorter than the chunk by its underscores plus the spaces that follow a space once the underscores are gone (so a run of spaces and underscores holding a space leaves one space); a chunk with neither is shown as it is |
| Layout.RowPlaces | utilities.py:272-278 | a row is `2*width + 6` long and holds the left chunk at its start and the right chunk after `" | "` |
| Layout.RowsShape | utilities.py:268-279 | for texts of the same shape, the index loop has one row per chunk of either text, and row `i` is the row of the `i`-th chunks (compacted in the compact variant): `2*width + 6` long, with the left text at column 0 and the right text at column `width + 3` |
| Layout.ComparisonLines | utilities.py:265-282 | side by side, `show_comparison` prints one row per chunk of each equalized text (the counts agree, so `s2[i]` is always in range), and row `i` is the `2*width + 6` long row holding the `i`-th chunk of each side, compacted in the compact variant, at columns 0 and `width + 3`; otherwise it prints the two equalized texts |
| Metrics.WeightedWer | utilities.py:359-369 | raises `ZeroDivisionError` exactly when the weights sum to 0; otherwise the value times the weight sum is the weighted sum of the rates |
| Metrics.DotTruncates | utilities.py:368 | `zip` silently drops the tail of the longer list |
| Metrics.DotBounds | utilities.py:368 | with non-negative weights the weighted sum lies between the smallest and largest rate times the weight sum |
| Metrics.WeightedWerBounds | utilities.py:359-369 | for equal-length lists, non-negative weights and a positive weight sum, the unrounded mean lies between any lower and upper bound of the rates |
| Metrics.WeightedWerConstant | utilities.py:359-369 | when every rate is `r`, the mean is `r` |
| Metrics.WeightedWerTruncates | utilities.py:368 | mismatched lengths are truncated rather than rejected, and a zero weight sum (empty or cancelling weights) raises |
| Metrics.StrpTime | utilities.py:25 | a successful `%M:%S` parse gives a minute and a second below 60 |
| Metrics.ChangeToSeconds | utilities.py:16-27 | a missing value comes back unchanged; a parsed value is between 0 and 3599 |
| Metrics.ChangeToSecondsAccepts | utilities.py:24-26 | `"M:S"` with one- or two-digit minutes and seconds, each 0..59, gives `60*M + S` |
| Metrics.ChangeToSecondsOnly | utilities.py:24-26 | any accepted string is such an `"M:S"` and gives `60*M + S`; every other string raises |
| Metrics.ChangeToSecondsRejects | utilities.py:25 | "1:60" raises a range error, "1:75" unconverted data, "60:00" and "" do not match |
| Metrics.CompareWords | utilities.py:285-298 | common words are in both lists, missing words only in the reference, extra words only in the hypothesis |
| Metrics.CompareWordsPartition | utilities.py:294-296 | common and missing words split the reference's words, common and extra words split the hypothesis's words, and the three sets are pairwise disjoint |
| JobNaming.CheckAssertions | transcribing_job_utils.py:13-31 | no error exactly when all three checks pass; otherwise the first failing check in source order |
| JobNaming.InputFolderSlashes | transcribing_job_utils.py:23-25 | an input folder is accepted exactly when it holds two slashes, e.g. "data/audio/" |
| JobNaming.OutputFolderExamples | transcribing_job_utils.py:26-28 | "transcriptions/" is accepted, and so is "transcriptions/\n"; no slash, an empty name, a second slash and a non-letter are refused |
| JobNaming.InputCloud | transcribing_job_utils.py:132 | the second-to-last segment plus "/" exists exactly when the folder holds a slash, and it ends in "/" |
| JobNaming.InputCloudOfAccepted | transcribing_job_utils.py:132 | for "a/b/c" with slash-free segments the folder is accepted and its cloud folder is "b/" |
| JobNaming.AcceptedInputFolder | transcribing_job_utils.py:279 | every accepted input folder is "a/b/c" with slash-free segments, and its cloud folder is its middle segment "b/" |
| JobNaming.DotAfter | transcribing_job_utils.py:285 | the lazy `(.*?)\.` finds the first "." after the slash, with no newline before it |
| JobNaming.SearchNone | transcribing_job_utils.py:285 | the search from a position fails exactly when no "/" at or after it is followed, on the same line, by a "." |
| JobNaming.SearchFirst | transcribing_job_utils.py:285 | the search returns the text between the leftmost "/" that is followed, on the same line, by a "." and that "." |
| JobNaming.JobName | transcribing_job_utils.py:285 | fails, with an error that `except ClientError` does not catch, exactly when no "/" of the key is followed on the same line by a "."; otherwise the name is the version followed by the text between the first such "/" and the next "." (so it starts with the version, and a key without "/" always fails) |
| JobNaming.JobNameOfKey | transcribing_job_utils.py:285 | for the key "folder/stem.ext" with a slash-free folder and a dot- and newline-free stem, the job name is `version + stem` |
| JobNaming.CsvId | transcribing_job_utils.py:366 | the id holds no "." and is shorter than the file name |
| JobNaming.CsvIdOfJob | transcribing_job_utils.py:366 | the CSV id of the job's `.json` file is exactly the stem the job name took from the key at line 285 |
| JobNaming.DownloadName | transcribing_job_utils.py:329 | the local name exists exactly when the key holds a "/", and holds no "/" |
| JobNaming.DownloadNameOfKey | transcribing_job_utils.py:329 | for "folder/name" with slash-free parts the local file name is "name" |
| JobNaming.DownloadNameOfNestedKey | transcribing_job_utils.py:329 | for a deeper key "folder/name/rest" with a slash-free folder and name, the local file name is "name", the part between the first and second slash |
| JobNaming.Extension | transcribing_job_utils.py:73 | `splitext` gives "" or a "." followed by neither "." nor "/" |
| JobNaming.ExtensionOfName | transcribing_job_utils.py:73 | for "dir/stem.ext" with a stem that is not all dots, the extension is ".ext" |
| JobNaming.ExtensionOfHidden | transcribing_job_utils.py:73 | a base name's leading dot does not start an extension |
| JobNaming.SupportedOfName | transcribing_job_utils.py:53-78 | a file "dir/stem.ext" passes the test exactly when the lower-cased ".ext" is one of the seven supported extensions |
| JobNaming.UnsupportedHidden | transcribing_job_utils.py:73-78 | "audio/.mp3" is refused: it has no extension |
| JobNaming.UnsupportedDotInDirectory | transcribing_job_utils.py:73-78 | a dot in a directory name does not count as the file's extension |

## Left out

- Unicode: `\w`, `\s`, `str.lower`, `str.isalpha` and `str.split()` are modelled on ASCII only. `str.split()` also treats the ASCII separators `\x1c`-`\x1f` as whitespace.
- Matcher.Blocks: difflib's `autojunk` heuristic is not modelled. That heuristic treats popular tokens as junk once the second list has 200 or more tokens, so the model matches difflib only below that size. The junk-free longest-match recursion is modelled.
- Matcher.MatchingBlocks: difflib sorts the blocks before merging. The recursion here already produces them left to right. The merge pass is modelled, but it is not proved to change nothing.
- Metrics.WeightedWer: the result is the exact quotient over reals. The floating-point division and the `round(..., 2)` are not modelled.
- `calculate_wer`/`calculate_cer` (utilities.py:307-356) are not modelled. They call jiwer's `wer`/`cer`, which is not part of this model, and scale by 100 in floating point.
- All boto3 S3 and Transcribe calls, the `time.sleep` polling loops, and all CSV, JSON, pandas and file I/O in transcribing_job_utils.py. Only the pure expressions at lines 13-31, 73-78, 132, 279, 285, 329 and 366 are modelled.
- The `os.path.exists`/`os.path.isfile` checks of `is_transcribable_file` (transcribing_job_utils.py:76-77): they read the file system.
- youtube_download.py is not part of this model: it is a wrapper over pytube and ffmpeg.
- `print`, `print_centered_columns` and `print_to_width`. `show_comparison` is modelled by the lines it would print.
- `pd.notna` is modelled by `Option`: `None` stands for any missing value.
- Layout.InsertNewlines: the model requires `0 < every` and `window < every`. With `window >= every` the source loop does not terminate on some inputs: it appends an empty chunk and never shrinks the string (`Layout.CutStalls` shows the stalling cut). It still terminates on others, e.g. `insert_newlines("a c d", 2, 5)`; those runs are not modelled.
- Layout.ComparisonLines: the inner `print` loop is modelled as the sequence of rows, not as output. The side-by-side mode inherits the `0 < width` and `margin < width` requirement of `Layout.InsertNewlines`; the other mode has no requirement.
- JobNaming.Extension: models POSIX `os.path.splitext`, where only "/" separates directories. On Windows, `ntpath` also treats "\\" as a separator, so for example `splitext("dir.v2\\clip")` gives "" there but ".v2\\clip" in the model.
