# ChildConicity CHAT toolkit — a Dafny model

ChildConicity reads child-language transcripts in the CHAT format (`.cha`
files: `@Key: value` header lines followed by `*SPK: text` utterance lines),
normalises the headers of four corpora (Brent, Brend, Post, VanKleeck) so that
each transcript names the child and the child's age, partitions utterances
into child and adult speech, counts words, loads an iconicity-ratings table,
merges word dictionaries and buckets transcripts into age quarters.

This project models that core in Dafny 4.11 and proves properties of the
model. One module per source file, plus four shared modules:

| module | file | models |
|---|---|---|
| `Wrappers`, `Text` | `text.dfy` | `Option`; Python's string methods used by the core (`strip`, `split`, `join`, `find`, `startswith`, `lower`, `int()`, `%02d`), with Python's whitespace and ASCII word characters |
| `Scan` | `scan.dfy` | the regular expressions of the core written out as functions: `key\s*(.*)` then `strip()`, lazy `.*?` scans that stop at a line break, `\s*` followed by a token, digit runs |
| `Dicts` | `dict.dfy` | a Python `dict` with insertion order: a key sequence plus a map, with `d[k] = v` and a loop of such stores |
| `Records` | `records.dfy` | a CSV row as a map from column names to string or number cells |
| `ChatReader` | `chat_reader.dfy` | `src/reader.py`: header extraction, participants, child name, utterances, `read_cha`, the `Reader` object |
| `Timestamps` | `timestamps.dfy` | `_extract_timestamp` and the `re.sub(r'\d+_\d+', '', …)` clean-up of utterance text |
| `LegacyReader` | `legacy_reader.dfy` | the older `reader.py`, whose record has no child fields, related to the current reader |
| `Formatter` | `data_formatter.dfy` | `src/data_formatter.py`: the `DataFormatter` object and its child/adult partition |
| `WordCounter` | `word_counter.dfy` | `src/word_counter.py`: tokens, counts, most-common ranking, the `WordCounter` object |
| `Iconicity` | `iconicity.dfy` | `src/iconicity_model.py`: row filtering, lookup, range filters, the `IconicityModel` object |
| `Merger` | `merger.dfy` | `src/word_dictionary_merger.py`: common words, merged fields, leftover dictionaries |
| `Splice` | `splice.dfy` | inserting a block after the line that holds the first occurrence of an anchor |
| `Brent` | `brent.dfy` | `src/brent_manipulator.py`: age from the file name, name table, header insertion |
| `Brend` | `brend.dfy` | `src/brend_manipulator.py`: age and name extraction, line-by-line header rewrite |
| `ChildHeader` | `child_header.dfy` | the `@ChildName`/`@Child_Age` block that the Post and VanKleeck scripts insert |
| `Post` | `post.dfy` | `src/modify_post_files.py`: age from `@ID:`, per-directory processing |
| `VanKleeck` | `vankleeck.dfy` | `src/modify_vankleeck_files.py`: age from `@ID:`, grouping files by child |
| `AgeGroups` | `age_groups.dfy` | `examples/main2.py`: age quarters and grouping transcripts by quarter |
| `StatsShape` | `stats_shape.dfy` | the input shape check of `src/data_analysis_plotter.py` |

Python exceptions are modelled as `None` results. For example, a participant
entry without a space makes `read_cha` return `None`, and a string rating
compared with a bound makes the iconicity filter return `None`. A missing file
is an `Option<string>` argument that is `None`. Objects whose methods update
their fields are classes with those fields and `modifies` clauses. Loops in the
source are methods with loop invariants, each proved equal to a specification
function, and the properties are lemmas about those functions.

Where the repository's own description and the code disagree, the model
follows the code:

- **List fields.** `@Languages`, `@Options` and `@Types` are split on commas
  and the elements are not trimmed; only the whole payload is stripped.
- **Header fields.** They are found anywhere in the text, not only at the
  start of a line.
- **Participants.** An entry without a space raises, so `read_cha` fails. It
  does not yield an empty list.
- **Partition keys.** The child and adult partitions are keyed by the
  utterance's position in the whole file, not by a counter within each
  partition. Utterances CHI, MOT, CHI give child keys {1, 3} and adult key {2}.
  Calling `format_cha_data_from` a second time adds to the earlier maps and
  overwrites matching positions.
- **Age quarter.** It is `months // 3 + 1`, with no normalisation of the
  month. Month 6 falls in quarter 3 and month 12 in quarter 5.
- **Inserted headers.** The header keys differ across corpora:
  - Brend writes `@ChildAge:`, which the reader reads back.
  - Brent, Post and VanKleeck write `@Child_Age:`, which the reader's
    `@ChildAge:` search does not find. `ChildHeader.AgeNotReadBack` proves
    this.

## Model

| member | source | states |
|---|---|---|
| ChatReader.Encoding | src/reader.py:72-75 | the encoding is `UTF8` exactly when `@UTF8` occurs somewhere in the text, and absent otherwise |
| ChatReader.TextField | src/reader.py:77-80 | a single-valued field is absent exactly when its key does not occur; when present it has no surrounding whitespace |
| ChatReader.TextFieldValue | src/reader.py:77-80 | a present field's value: the text after the first key splits into whitespace (line breaks included), the rest of the line where that whitespace stops, and the line break after it, and the value is that rest of the line stripped |
| ChatReader.PayloadOnNextLine | src/reader.py:119-122 | a key followed by whitespace that runs over a line break reads the value from the later line |
| ChatReader.PidOnNextLine | src/reader.py:77-80 | `@PID:` at the end of a line and `  x` on the next gives `x` |
| Scan.FieldPayload | src/reader.py:79-80 | `re.search(key + r'\s*(.*)')` followed by `strip()` fails exactly when the key does not occur |
| Scan.FieldPayloadValue | src/reader.py:79-80 | whenever the text after the first key is cut into greedy whitespace, a line part starting with a non-space and the line break that ends it, the payload is that line part stripped |
| Scan.FieldPayloadSplit | src/reader.py:79-80 | when the key occurs, the text after its first occurrence has such a cut, and the payload is its line part stripped |
| Scan.FieldAfterBreak | src/reader.py:119-122 | a line `key v` after a line break, with no earlier key, reads back as exactly `v` |
| Scan.SearchAtNone | src/brend_manipulator.py:144-154 | `re.search(lit + M)` for a sub-pattern `M` that takes no backtracking finds nothing exactly when `M` fails after every occurrence of `lit` |
| Scan.SearchRunNone | src/brend_manipulator.py:157-184 | `re.search(lit + r'\s*([^\n]+)')` (or with `\s+`, or stopping at a comma) finds nothing exactly when no occurrence of `lit` is followed by the whitespace and a non-empty run, however much whitespace is given back |
| Scan.SearchRunCaptured | src/brend_manipulator.py:157-184 | a successful such search captures, at the first occurrence where the pattern matches, the run that starts after the most whitespace the pattern can take, and the capture is unique |
| Scan.CaptureUnique | src/brend_manipulator.py:157-184 | the occurrence and the start of the run that the search captures are determined uniquely |
| Scan.SearchLazyNone | src/brend_manipulator.py:108-129 | `re.search(lit + r'.*?M')` (or with `\s*` first) finds nothing exactly when, after every occurrence of `lit`, `M` matches at no position up to the end of that line |
| Scan.SearchLazyFrom | src/brend_manipulator.py:108-129 | `re.search(lit + r'.*?M')` (or with `\s*` first) gives what the pattern gives at the occurrence of `lit` at `i`, when it matches there and misses at every earlier start |
| Scan.LazyAtFound | src/brend_manipulator.py:108-129 | the lazy `.*?M` started after a `lit` finds the match at `k` when no earlier position of that line matches |
| Scan.SearchAtFrom | src/brend_manipulator.py:144-154 | `re.search(lit + M)` gives what `M` reads after the occurrence of `lit` at `i`, when it fails after every earlier occurrence |
| ChatReader.ListField | src/reader.py:82-85 | a list field is `[]` when the key is absent; otherwise it is non-empty, its elements hold no comma, and joining them with commas gives back the stripped payload |
| ChatReader.MediaField | src/reader.py:103-112 | media is absent exactly when `@Media:` is absent; the id holds no comma, and the type is absent exactly when the payload has no comma |
| ChatReader.Entry | src/reader.py:92-94 | one participant entry splits at its first space: it fails exactly when the stripped entry has no space; otherwise code, a space and name give back the stripped entry, and the code holds no space |
| ChatReader.ParticipantsFacts | src/reader.py:87-96 | participants fail exactly when some entry has no space; on success the keys are the entries' codes, and each code maps to the name of its last entry |
| ChatReader.ParticipantsValid | src/reader.py:91-95 | the participants dictionary holds each code once, and every name ends in a non-space character |
| ChatReader.ExtractParticipants | src/reader.py:87-96 | the loop over the comma-separated entries computes the participants function |
| ChatReader.FirstChildName | src/reader.py:133-135 | with no `@ChildName`, the name is absent exactly when no participant code contains `CHI`; otherwise it is the first word of the name of the first such code in insertion order |
| ChatReader.ChildName | src/reader.py:124-136 | a present `@ChildName:` field decides the name; the lookup fails only when there is no such field and the participants fail |
| ChatReader.ChildNameFailsWithParticipants | src/reader.py:132 | the child-name lookup raises only through the participants parser |
| ChatReader.UtteranceOf | src/reader.py:147-158 | a `*` line yields an utterance exactly when it holds a `:` |
| ChatReader.UtteranceFields | src/reader.py:147-158 | a line `*raw:rest` with no `:` in `raw` gives speaker `raw` stripped, text `rest` without its time marks and stripped, and the first time mark of `rest` |
| ChatReader.StarLines | src/reader.py:146-147 | only lines starting with `*` are utterance lines |
| ChatReader.UtterancesShape | src/reader.py:143-159 | utterance extraction succeeds exactly when every `*` line holds a `:`; the utterances are then the `*` lines parsed one by one, in order |
| ChatReader.UtterancesFailPersists | src/reader.py:148 | once a `*` line without `:` has been seen, extraction fails whatever follows |
| ChatReader.ExtractUtterances | src/reader.py:143-159 | the loop over lines computes the utterances function |
| ChatReader.ReadChaOf | src/reader.py:29-70 | `read_cha` succeeds exactly when the file exists and both the participants and the utterances parse |
| ChatReader.Reader.ReadCha | src/reader.py:29-70 | the method returns the pure reader's result and stores it in `data` only on success |
| Timestamps.PairAt | src/reader.py:163 | a match of `\d+_\d+` at a position is a maximal digit run, `_`, and a maximal digit run |
| Timestamps.FirstTimestamp | src/reader.py:161-169 | a timestamp is found only where a digit, `_` and a digit occur |
| Timestamps.FirstTimestampAt | src/reader.py:161-169 | the timestamp is the start and end values of the leftmost `digits_digits` match |
| Timestamps.FirstTimestampNone | src/reader.py:161-169 | there is no timestamp exactly when no `digits_digits` pattern occurs |
| Timestamps.RemovePairs | src/reader.py:153 | removing the time marks never makes the text longer |
| Timestamps.RemovePairsAt | src/reader.py:153 | `re.sub` keeps the text before the leftmost match as it is, drops the match, and goes on after it |
| Timestamps.RemoveNoPair | src/reader.py:153 | text without a `digits_digits` mark is kept as it is |
| Timestamps.RemovedHasNoPair | src/reader.py:153 | the cleaned text contains no `digits_digits` pattern |
| Timestamps.RemoveIdempotent | src/reader.py:153 | cleaning the text twice gives the same result as cleaning it once |
| Timestamps.RemoveChangesIffTimestamp | src/reader.py:151-153 | the clean-up changes the text exactly when a timestamp is found |
| LegacyReader.AgreesWithCurrent | reader.py:28-67 | the older reader succeeds on the same files as the current one, and its record is the current record without the child age and child name fields |
| LegacyReader.Reader.ReadCha | reader.py:28-67 | the older reader's method returns the pure result and stores it only on success |
| Formatter.Indexed | src/data_formatter.py:33-35 | the CSV rows are re-keyed 1..n in row order |
| Formatter.AdultIff | src/data_formatter.py:10-20 | `is_children` compares the whole code: a position is an adult entry exactly when its speaker is not exactly `CHI` |
| Formatter.PartitionFacts | src/data_formatter.py:52-61 | the child and adult maps are disjoint, together cover positions 1..n, position i is a child entry exactly when its speaker is `CHI`, and each entry is the utterance at that position |
| Formatter.PartsSnoc | src/data_formatter.py:58-61 | each utterance is stored in exactly one of the two maps, under its position |
| Formatter.KeysArePositions | src/data_formatter.py:52-61 | utterances CHI, MOT, CHI give child keys {1, 3} and adult key {2} |
| Formatter.SecondCallKeeps | src/data_formatter.py:58-61 | a second file keeps earlier entries at positions beyond its own length |
| Formatter.ReuseOverlap | src/data_formatter.py:58-61 | across two calls the same position can end up in both the child map and the adult map |
| Formatter.DataFormatter.FormatCsvDataFrom | src/data_formatter.py:22-36 | a read CSV table becomes the re-keyed data dictionary and is returned; a failed read returns `None` and changes nothing |
| Formatter.DataFormatter.FormatChaDataFrom | src/data_formatter.py:38-63 | on a successful read the child and adult maps grow by the file's partitions and are returned; on a failed read both results are `None` and the maps are unchanged |
| Formatter.DataFormatter.Partition | src/data_formatter.py:52-61 | the partition loop adds exactly the child and adult parts to the maps |
| Formatter.DataFormatter.GetChildrenData | src/data_formatter.py:65-72 | returns the child map |
| Formatter.DataFormatter.GetAdultsData | src/data_formatter.py:74-81 | returns the adult map |
| Formatter.DataFormatter.GetData | src/data_formatter.py:83-90 | returns the CSV data dictionary |
| WordCounter.Tokens | src/word_counter.py:33 | `re.findall(r'\b\w+\b')` yields non-empty runs of word characters |
| WordCounter.TokensOfWord | src/word_counter.py:33 | a text made only of word characters is one single token, so a run is never cut short |
| WordCounter.TokensSplit | src/word_counter.py:33 | a non-word character separates the tokens: those of `x + [c] + y` are those of `x` followed by those of `y`, so every token is a maximal run |
| WordCounter.TokensCoverWordChars | src/word_counter.py:33 | the tokens, concatenated, are exactly the word characters of the text in order, so none is lost or invented |
| WordCounter.CountsAreMultiplicities | src/word_counter.py:30-35 | after counting, each word's count equals its number of occurrences among the tokens, and the counted words are exactly the tokens |
| WordCounter.BumpAllAppend | src/word_counter.py:30-35 | counting two token lists one after the other equals counting their concatenation |
| WordCounter.CountsDependOnArgumentOnly | src/word_counter.py:27-38 | because the counts are cleared first, a call's counts depend only on its argument; every count is at least 1, and no entries give no counts |
| WordCounter.NoTextAddsNothing | src/word_counter.py:31 | an entry without a `text` field adds no tokens |
| WordCounter.Counter.CountWords | src/word_counter.py:15-38 | the stored counts become the counts of the lower-cased tokens of the entries, and the result maps each counted word to `{'count': n}` with n ≥ 1 |
| WordCounter.Counter.CountTokens | src/word_counter.py:34-35 | the inner loop adds one to a word's count per occurrence |
| WordCounter.Counter.GetWordCounts | src/word_counter.py:40-47 | returns the current counts |
| WordCounter.StrLessTotal | src/word_counter.py:60-61 | the tie-break order on words is total |
| WordCounter.StrLessTransitive | src/word_counter.py:60-61 | the tie-break order on words is transitive |
| WordCounter.SortByCount | src/word_counter.py:60-61 | sorting permutes the items |
| WordCounter.SortByCountSorted | src/word_counter.py:60-61 | the items come out by descending count, then by ascending word |
| WordCounter.Take | src/word_counter.py:61 | `[:n]` is a prefix of length min(n, len) for n ≥ 0, and of len + n (at least 0) for negative n |
| WordCounter.MostCommon | src/word_counter.py:49-61 | no word appears twice in the ranking |
| WordCounter.MostCommonFacts | src/word_counter.py:49-61 | the ranking is sorted, has min(n, distinct words) entries for n ≥ 0, holds each word at most once and only stored counts, and no omitted word ranks ahead of an included one |
| WordCounter.Counter.GetMostCommon | src/word_counter.py:49-61 | the method computes the most-common ranking of the stored counts, of ten words when no `n` is given |
| Iconicity.RecordOf | src/iconicity_model.py:28-34 | a kept row's record copies `n_ratings`, `n`, `prop_known` (as `prop_knwn`), `rating` and `rating_sd` |
| Iconicity.ProcessKeys | src/iconicity_model.py:25-34 | the stored words are exactly the `word` values of the rows that have all six columns |
| Iconicity.ProcessLast | src/iconicity_model.py:25-34 | a word repeated across rows keeps the record of its last complete row |
| Iconicity.IncompleteRowIgnored | src/iconicity_model.py:26 | a row missing any of the six columns changes nothing |
| Iconicity.ProcessValid | src/iconicity_model.py:25-34 | the word table holds each word once |
| Iconicity.Model.constructor | src/iconicity_model.py:2-16 | the model's word table is the processed rows |
| Iconicity.Model.GetWordData | src/iconicity_model.py:36-46 | `get` returns `None` exactly for an unknown word, and the stored record otherwise |
| Iconicity.Model.GetAllWords | src/iconicity_model.py:48-55 | the word list holds each stored word exactly once |
| Iconicity.InRange | src/iconicity_model.py:71-72 | a value passes exactly when it meets each bound that is set; a string value compared with a set bound raises |
| Iconicity.FilterNone | src/iconicity_model.py:68-74 | the filter raises exactly when some word's value is a string and a bound is set |
| Iconicity.FilterKeeps | src/iconicity_model.py:68-74 | on success the result holds exactly the passing words, each with its record unchanged |
| Iconicity.FilterUnboundedKeepsAll | src/iconicity_model.py:68-74 | with no bound set, every word is kept in order |
| Iconicity.FailurePersists | src/iconicity_model.py:69-73 | once a comparison has raised, the whole filter raises |
| Iconicity.Model.FilterWords | src/iconicity_model.py:68-74 | the filter loop computes the filter function |
| Iconicity.FilterLoop | src/iconicity_model.py:68-74 | the loop over the stored words, stopping at the first comparison that raises, computes the filter function |
| Iconicity.Model.GetWordsByRating | src/iconicity_model.py:57-74 | filters the stored words by rating; each bound defaults to none |
| Iconicity.Model.GetWordsByKnownProportion | src/iconicity_model.py:76-93 | filters the stored words by known proportion; each bound defaults to none |
| Merger.WordDictionaryMerger.AddDictionary | src/word_dictionary_merger.py:8-17 | a dictionary argument is appended and accepted; any other argument is rejected and changes nothing |
| Merger.AllWordsIff | src/word_dictionary_merger.py:32-34 | the word set is exactly the words found in some dictionary |
| Merger.CommonIff | src/word_dictionary_merger.py:37-39 | a word is common exactly when every dictionary holds it |
| Merger.CommonWords | src/word_dictionary_merger.py:37-39 | the intersection loop computes the common words |
| Merger.MergedFieldsKeys | src/word_dictionary_merger.py:44-46 | a merged word's fields are exactly the fields it has in some dictionary |
| Merger.MergedFieldsLast | src/word_dictionary_merger.py:44-46 | a field takes its value from the last dictionary that has it |
| Merger.MergeWord | src/word_dictionary_merger.py:44-47 | the update loop computes the merged fields |
| Merger.MergeWords | src/word_dictionary_merger.py:42-47 | the merged dictionary holds the merged fields of every common word |
| Merger.LeftoverFacts | src/word_dictionary_merger.py:52-55 | a leftover dictionary holds exactly the non-common words, with their data unchanged |
| Merger.LeftoverOf | src/word_dictionary_merger.py:52-55 | the leftover loop computes the leftover dictionary |
| Merger.UnmergedParts | src/word_dictionary_merger.py:50-57 | the unmerged list holds only non-empty leftovers, at most one per dictionary |
| Merger.KeyPartition | src/word_dictionary_merger.py:43-57 | each word of each dictionary is either merged or left over, never both |
| Merger.MergeOfNothing | src/word_dictionary_merger.py:28-29 | with no dictionaries the result is empty |
| Merger.MergeOfOne | src/word_dictionary_merger.py:19-59 | with one dictionary, everything is merged and nothing is left over |
| Merger.WordDictionaryMerger.ObtainMerge | src/word_dictionary_merger.py:19-59 | returns the merged dictionary of the common words and the unmerged leftovers |
| Merger.CollectWords | src/word_dictionary_merger.py:32-34 | the `update` loop collects every word of every dictionary |
| Merger.CollectLeftovers | src/word_dictionary_merger.py:50-57 | the loop collects each dictionary's leftover, in order, dropping the empty ones |
| Splice.InsertPoint | src/brent_manipulator.py:180-191 | the insertion point exists exactly when the anchor occurs and a line break follows it; it is just after the first such line break |
| Splice.Insert | src/brent_manipulator.py:193 | the result is the text up to the point, the block, then the rest, and is the text itself when there is no point |
| Splice.RemoveBlock | src/brent_manipulator.py:193 | removing the inserted block gives back the original text |
| Splice.ChangesIffPoint | src/brent_manipulator.py:181-191 | a non-empty block changes the text exactly when there is an insertion point |
| Brent.BaseName | src/brent_manipulator.py:127 | `split('.')[0]` is the prefix before the first `.` |
| Brent.CodeDate | src/brent_manipulator.py:137 | `^[a-z]\d+-[rf](\d+)([a-z]+)(\d+)` yields a day digit run, a lower-case month run and a year digit run |
| Brent.CalculateAge | src/brent_manipulator.py:113-166 | a non-zero age comes only from a six-digit name or a coded name with a known month |
| Brent.SixDigitName | src/brent_manipulator.py:131-134 | a six-digit name gives years, months and days from its digit pairs |
| Brent.CodeDateName | src/brent_manipulator.py:137-157 | a coded name with a known month gives the year, the month number and the day |
| Brent.InsertAgeMetadata | src/brent_manipulator.py:168-193 | the age and name block is spliced after the `@Languages` line, and the text is unchanged when there is no such line |
| Brent.InsertAgeMetadataUndone | src/brent_manipulator.py:186-193 | deleting the block gives back the original text |
| Brent.NameFor | src/brent_manipulator.py:94 | a known code gives its name; any other code gives the code itself |
| Brent.ChildDirs | src/brent_manipulator.py:52 | only directories named a letter followed by digits are processed |
| Brent.FallbackFacts | src/brent_manipulator.py:53-55 | processed directories gain themselves as fallback names, known names are kept, and every name lookup is unchanged |
| Brent.Manipulator.constructor | src/brent_manipulator.py:18-35 | the name table starts as the sixteen known children |
| Brent.Manipulator.ProcessDirectory | src/brent_manipulator.py:37-56 | the processed directories are the child directories in listing order, and the table gains their fallbacks |
| Brent.Manipulator.ProcessChaFile | src/brent_manipulator.py:78-111 | the output is the input with the age from the file name and the name from the table inserted |
| Brend.BaseName | src/brend_manipulator.py:72 | `os.path.basename` is the part after the last `/` |
| Brend.M1Date | src/brend_manipulator.py:80 | `m1-[rf](\d{2})([a-z]{3})(\d{2})` yields two digits, three lower-case letters and two digits |
| Brend.NameAge | src/brend_manipulator.py:73-104 | an age taken from a file name always has the `Y years MM months DD days` form |
| Brend.SixDigitNameAge | src/brend_manipulator.py:100-104 | a name with six leading digits gives the age from its digit pairs |
| Brend.M1NameAge | src/brend_manipulator.py:77-97 | an `m1-` name gives 0 years, the month number (0 when unknown) and the day |
| Brend.BadSliceNameAge | src/brend_manipulator.py:100-104 | a failed `int()` on the name slice gives the default age |
| Brend.ExtractAge | src/brend_manipulator.py:57-136 | no content (`None`, which makes `os.path.isfile` raise) gives the default age before the path is looked at; otherwise a path containing `Brent` with a readable name decides the age, and with no path (the default), a path without `Brent`, or a name the file-name rules cannot read, the content decides it; the result always has the age form |
| Brend.BrentPathAge | src/brend_manipulator.py:70-104 | under a `Brent` path, the file name decides the age |
| Brend.PidMatchAt | src/brend_manipulator.py:108-113 | when the leftmost `@PID:` whose line holds `|Y;M|` is at `i` (no earlier `@PID:` line holds a pair, whether or not such lines exist), and the first pair on that line reads `Y` and `M`, the content age is `Y` years `M` months |
| Brend.PidSearchNone | src/brend_manipulator.py:108-109 | the `@PID:` pattern finds nothing exactly when no `@PID:` is followed on its line by `|Y;M|` |
| Brend.PidLineWithoutBar | src/brend_manipulator.py:108-109 | an `@PID:` line without a `|` gives the `@PID:` pattern nothing there, so the search goes on to the next `@PID:` |
| Brend.IdSearchNone | src/brend_manipulator.py:116-117 | the `@ID:` pattern finds nothing exactly when no `@ID:` is followed on its line by `CHI|Y;M.` |
| Brend.ChiSearchNone | src/brend_manipulator.py:124-125 | the `*CHI:` pattern finds nothing exactly when no `*CHI:` line (after its whitespace) holds digits followed by `;` or `:` |
| Brend.IdMatchAt | src/brend_manipulator.py:108-121 | when the `@PID:` pattern matches nowhere, and the leftmost `@ID:` whose line holds `CHI|Y;M.` is at `i` (earlier `@ID:` lines, such as an adult's, hold none), the first such token on that line gives `Y` years `M` months |
| Brend.ChiMatchAt | src/brend_manipulator.py:108-129 | when neither the `@PID:` nor the `@ID:` pattern matches anywhere, and the leftmost `*CHI:` line holding digits followed by `;` or `:` is at `i` (earlier `*CHI:` lines hold none), the first such digit run after its whitespace gives that many years, months zero |
| Brend.NoAgeInContent | src/brend_manipulator.py:108-132 | when none of the three patterns matches anywhere, whether or not their header keys occur, the age is the default `0 years 00 months 00 days` |
| Brend.ContentAgeShape | src/brend_manipulator.py:106-132 | an age found in the content has zero days |
| Brend.ExtractChildName | src/brend_manipulator.py:138-190 | the child name is never empty; a `Brent/<letter><digits>/` code in the path decides it first; with no such code and no content (`None`, on which the first content search raises) it is `Target_Child`; the path defaults to none |
| Brend.PathNameNone | src/brend_manipulator.py:142-147 | the path gives no name exactly when there is no path, no `Brent` in it, or no `Brent/` in it followed by a letter, digits and `/` |
| Brend.IdFieldMisses | src/brend_manipulator.py:151-154 | the `@ID:` pattern gives no name exactly when no `@ID:` is followed by whitespace, `eng|`, a non-empty run without `|` and `|CHI` |
| Brend.NestedNone | src/brend_manipulator.py:156-184 | a header-then-inner search gives nothing exactly when, for the line the header search captures (if any), the inner pattern matches nowhere in it |
| Brend.PathNamesChild | src/brend_manipulator.py:142-147 | a path with `Brent/<letter><digits>/` names the child by that code |
| Brend.IdNamesChild | src/brend_manipulator.py:151-154 | without a path, the leftmost `@ID:` followed by `eng|<name>|CHI` names the child, whatever earlier `@ID:` lines (an adult's `|MOT`, say) hold |
| Brend.ParticipantsNameAt | src/brend_manipulator.py:156-164 | when neither the path nor `@ID:` gives a name, a first `@Participants:` line of the form `CHI`, whitespace, `v`, then a comma or the line end names the child `v` |
| Brend.PidNameAt | src/brend_manipulator.py:166-174 | when the participants give nothing either (whether or not the line exists), a first `@PID:` line with `Child:`, whitespace and `v` up to a comma or the line end names the child `v` |
| Brend.CommentNameAt | src/brend_manipulator.py:176-184 | when the `@PID:` line gives nothing either, a first `@Comment:` line with `name:`, whitespace and `v` names the child `v` |
| Brend.NoNameMatches | src/brend_manipulator.py:185-187 | when none of the five sources matches, whether or not their header keys occur, the name is `Target_Child` |
| Brend.NestedAt | src/brend_manipulator.py:157-164 | a first `key` line starting with `inner`, whitespace and a value up to a comma or the line end yields that value |
| Brend.ParticipantsLineNamesChild | src/brend_manipulator.py:150-164 | without `@ID:`, `@Participants: CHI Ann Target_Child, MOT Mother` names the child `Ann Target_Child` |
| Brend.NoNameFound | src/brend_manipulator.py:187 | with none of the headers, the name is `Target_Child` |
| Brend.AddMetadata | src/brend_manipulator.py:192-224 | the line loop computes the header rewrite |
| Brend.RunFlags | src/brend_manipulator.py:199-222 | the flags record whether a `@Languages:` line was seen and whether the age and the name were written |
| Brend.FirstLanguagesFirst | src/brend_manipulator.py:215-216 | insertion happens after the first `@Languages:` line only |
| Brend.RunOut | src/brend_manipulator.py:203-222 | the output lines are the rewritten lines, with any missing age and name lines placed right after the first `@Languages:` line |
| Brend.AddMetadataLines | src/brend_manipulator.py:192-224 | the new content is those output lines joined with line breaks |
| Brend.NoAnchorUnchanged | src/brend_manipulator.py:203-224 | with no `@Languages:` line and no child headers, the content is unchanged |
| Brend.FreshLines | src/brend_manipulator.py:214-222 | a file with neither header gains exactly the age line and then the name line after `@Languages:` |
| Brend.RoundTrip | src/brend_manipulator.py:192-224 | the current reader reads back the inserted age and name exactly |
| ChildHeader.Modify | src/modify_post_files.py:22-47 | the `@ChildName`/`@Child_Age` block is spliced after the `@Languages:` line, and the text is unchanged when there is no such line |
| ChildHeader.ModifyUndone | src/modify_post_files.py:38-43 | deleting the block gives back the original text |
| ChildHeader.ModifyChanges | src/modify_vankleeck_files.py:28-39 | the content changes exactly when there is an insertion point |
| ChildHeader.NameReadBack | src/modify_post_files.py:40 | the reader reads back the inserted child name |
| ChildHeader.AgeNotReadBack | src/modify_post_files.py:41 | the reader does not see the inserted `@Child_Age:` line as a child age |
| Post.IdAge | src/modify_post_files.py:11 | a match of `eng\|Post\|CHI\|(\d+;\d+\.\d+)\|` yields three digit runs |
| Post.ExtractAge | src/modify_post_files.py:5-20 | a missing file has no age; otherwise there is an age exactly when the pattern matches after some `@ID:` |
| Scan.SearchSpacedFrom | src/modify_post_files.py:11-17 | `re.search(lit + r'\s*M')` gives what the pattern gives at `i`, when it matches there and at no earlier start |
| Post.AgeOfHeader | src/modify_post_files.py:11-17 | the leftmost `@ID:` header followed by a Post child token gives `Y years M months D days`, digits as written, whatever earlier `@ID:` headers (an adult's, say) hold |
| Post.GroupSplits | src/modify_post_files.py:15-16 | the two splits recover the three digit runs |
| Post.NoAgeIff | src/modify_post_files.py:11-12 | there is no age exactly when the pattern matches after no `@ID:` |
| Post.NoIdNoAge | src/modify_post_files.py:11-20 | text without `@ID:` has no age |
| Post.ProcessedContent | src/modify_post_files.py:92-94 | a copy differs from its source only when an age was found |
| Post.ProcessedChanges | src/modify_post_files.py:92-94 | the copy differs exactly when an age was found and there is an insertion point |
| Post.ProcessDirectory | src/modify_post_files.py:70-95 | the loop over subdirectories computes the outputs function: the subdirectories considered, in listing order |
| Post.ProcessFiles | src/modify_post_files.py:81-95 | the loop over one subdirectory's files computes its outputs: its `.cha` files in listing order, each processed |
| Post.OutputsIff | src/modify_post_files.py:70-94 | the outputs are exactly the processed `.cha` files of the visible subdirectories, named by their subdirectory |
| Post.DirOutputsComplete | src/modify_post_files.py:81-94 | every `.cha` file of a subdirectory is copied and processed |
| Post.DirOutputsSound | src/modify_post_files.py:81-94 | every output comes from a `.cha` file of that subdirectory |
| VanKleeck.IdAge | src/modify_vankleeck_files.py:13 | a match of `eng\|VanKleeck\|CHI\|(\d+);(\d+)\.\|` yields two digit runs |
| VanKleeck.ExtractAge | src/modify_vankleeck_files.py:6-21 | a missing file has no age; otherwise there is an age exactly when the pattern matches after some `@ID:` |
| VanKleeck.AgeOfHeader | src/modify_vankleeck_files.py:13-18 | the leftmost `@ID:` header followed by a VanKleeck child token gives `Y years M months 0 days`, whatever earlier `@ID:` headers hold |
| VanKleeck.NoAgeIff | src/modify_vankleeck_files.py:13-14 | there is no age exactly when the pattern matches after no `@ID:` |
| VanKleeck.NoIdNoAge | src/modify_vankleeck_files.py:13-21 | text without `@ID:` has no age |
| VanKleeck.ProcessedChanges | src/modify_vankleeck_files.py:75-77 | the copy differs exactly when an age was found and there is an insertion point |
| VanKleeck.GroupName | src/modify_vankleeck_files.py:54-56 | the group is the lower-cased leading letter run of a name that matches `([a-zA-Z]+)(?:\d+[a-z]*)?\.cha` |
| VanKleeck.GroupNameOf | src/modify_vankleeck_files.py:54-56 | a name made of letters, optional digits with lower-case letters, then `.cha` is grouped under its lower-cased letters |
| VanKleeck.ChaFiles | src/modify_vankleeck_files.py:48 | exactly the listed names ending in `.cha` are kept |
| VanKleeck.GroupFiles | src/modify_vankleeck_files.py:48-59 | the grouping loop computes the grouping function |
| VanKleeck.GroupedIsPartition | src/modify_vankleeck_files.py:51-59 | there is one group per name some file is grouped under, each listed once, and each holds exactly its files in listing order |
| VanKleeck.OneGroupEach | src/modify_vankleeck_files.py:51-59 | a grouped `.cha` file lies in exactly the group of its name |
| AgeGroups.YearsMonths | examples/main2.py:25-32 | a `years` age with fewer than three words, and any other age of two characters or fewer, cannot be read (Python's `IndexError`/`ValueError`) |
| AgeGroups.Quarter | examples/main2.py:34 | the quarter `q` of a month count `m` satisfies 3(q-1) ≤ m < 3q |
| AgeGroups.AgeQuarter | examples/main2.py:13-37 | the label ends in `Q`, and an unreadable age gives `00Y00Q` |
| AgeGroups.YearsForm | examples/main2.py:25-35 | `Y years M months …` gives `YY` and `(M // 3 + 1)` both padded to two digits |
| AgeGroups.CompactForm | examples/main2.py:29-35 | a compact `YYMM…` age gives the quarter of its first four digits |
| AgeGroups.FewWords | examples/main2.py:25-37 | a `years` age with fewer than three words gives `00Y00Q` |
| AgeGroups.TooShort | examples/main2.py:29-37 | a compact age of two characters or fewer gives `00Y00Q` |
| AgeGroups.PostAgeQuarter | examples/main2.py:13-37 | a Post age string falls in the quarter of its years and months |
| AgeGroups.BrendAgeQuarter | examples/main2.py:13-37 | a Brend age string falls in the quarter of its years and months |
| AgeGroups.ThirdQuarter | examples/main2.py:34 | months 6 to 8 give quarter 3 |
| AgeGroups.MonthTwelve | examples/main2.py:34 | months 12 to 14 give quarter 5 |
| AgeGroups.UpdateNewer | examples/main2.py:71-72 | `update` takes the new value for a key in the argument |
| AgeGroups.UpdateOlder | examples/main2.py:71-72 | `update` keeps the old value for a key not in the argument |
| AgeGroups.UnionsKeys | examples/main2.py:71-72 | a bucket's utterance keys are those of some file in it |
| AgeGroups.UnionsLatest | examples/main2.py:71-72 | a key takes its value from the last file in the bucket that has it |
| AgeGroups.AddTranscript | examples/main2.py:58-86 | the loop body adds one transcript |
| AgeGroups.AddTranscripts | examples/main2.py:57-86 | the loop over a child's files adds them in order |
| AgeGroups.GroupDataByAge | examples/main2.py:39-88 | the nested loops compute the grouping of all files of all corpora |
| AgeGroups.GroupedBuckets | examples/main2.py:39-88 | there is a bucket for each quarter some aged file falls in, and each bucket is built from exactly its files in order |
| AgeGroups.BucketFiles | examples/main2.py:79-86 | a bucket's file list has one entry per file in that quarter, in order |
| AgeGroups.InBucketMembers | examples/main2.py:58-60 | a file is in a bucket exactly when it has a non-empty age in that quarter |
| AgeGroups.BucketChildrenLatest | examples/main2.py:71 | a child utterance key in a bucket takes the last file's value |
| AgeGroups.BucketAdultsLatest | examples/main2.py:72 | an adult utterance key in a bucket takes the last file's value |
| AgeGroups.BucketChildrenKeys | examples/main2.py:71 | a bucket's child keys are those of its files |
| AgeGroups.FileInOneBucket | examples/main2.py:58-86 | every aged file lies in exactly one bucket, and a file without an age lies in none |
| StatsShape.AllIn | src/data_analysis_plotter.py:66 | `all(field in v …)` holds exactly when every field is in v, and raises only on a scalar |
| StatsShape.LookupUnique | src/data_analysis_plotter.py:60 | on a dictionary, which holds each key once, `stats[group]` is the value stored under `group` |
| StatsShape.ValidateData | src/data_analysis_plotter.py:50-51 | data that is not a dictionary is rejected |
| StatsShape.GroupsOkIff | src/data_analysis_plotter.py:53-69 | the loop passes exactly when every age group is well-shaped |
| StatsShape.ValidateIff | src/data_analysis_plotter.py:43-69 | the check accepts exactly the well-shaped data |
| StatsShape.ErrorFromScalar | src/data_analysis_plotter.py:59-66 | an error escapes only from a group whose `adults` or `children` entry is a scalar |
| StatsShape.FirstFailureWins | src/data_analysis_plotter.py:53-57 | a failing group before a scalar one gives `False`, not an error |

## Left out

- File and directory I/O is not modelled: reading, writing, `shutil.copy2`, `os.makedirs`, `os.listdir` and `os.walk`. File contents and directory listings are parameters, and output files are returned values.
- `Reader.read_directory` (`src/reader.py:171-207`) is not modelled. It only walks the directory tree and calls `read_cha`.
- `Reader.read_csv` is not modelled, since the pandas parsing is not in scope. `format_csv_data_from` takes the parsed rows, or `None` for a failed read.
- `Formatter.DataFormatter.FormatCsvDataFrom`: does not model that the pandas reader leaves its table in `reader.data`.
- `Brend.ExtractAge`: does not model the `os.path.isfile(content)` check that reads the content from a file when the content is a path. Only the `None` content, on which that check raises, is modelled.
- The Brent manipulator's `base_dir` and `output_dir` arguments (defaults `Brent` and `Brent_modified`) are directory paths and are left out with the I/O. The other default arguments of the core (`n=10`, `file_path=None` and the `None` range bounds) are Dafny default parameters.
- The Brend `process_directory` and `process_file` methods, and the Brent `_process_child_directory` method, are not modelled. They walk directories and apply the modelled per-file functions.
- `src/corpus_manipulator.py`, `src/reorganize_newengland.py`, the `main` scripts and the plotting methods of `src/data_analysis_plotter.py` are not part of this model. Only its `_validate_data` shape check is modelled.
- The iconic/non-iconic statistics per age bucket are not part of this model.
- `\w`, `\d` and `lower()` cover ASCII only. Python also accepts other Unicode letters and digits. Whitespace (`\s`, `strip()`, `split()`) is Python's full set.
- Numbers in the ratings table are reals. NaN and float rounding are not modelled.
- `Merger.WordDictionaryMerger.ObtainMerge`: the merged result is a map, so the iteration order of Python's `set` over the common words is not modelled.
- `Formatter.DataFormatter.GetChildrenData`, `GetAdultsData` and `GetData` return the stored maps as values. The source hands out its live dictionaries, so a caller's later changes to them would change the formatter; that aliasing is not modelled.
- Printed messages are not modelled.
- Exceptions caught and reported by `print` are modelled by their return value only.
