# Tag extractor: a verified model of the word-frequency pipeline

The tag extractor is a small Swing program. The user picks a text file and a
stop-word ("noise word") file. The program then counts how often each
normalised word of the text occurs, skips the stop words, and shows the table
as `word : count` lines. It can also save those lines to a file chosen by the
user.

This project models that pipeline in Dafny and proves what it computes:

- `Text`: Java's `\s` character class and ASCII lower-casing.
  - `Normalize` is `replaceAll("[^a-zA-Z]", "").toLowerCase()`.
  - `Split` is `String.split("\\s+")`. It keeps Java's quirks: a line with
    no whitespace comes back whole, so `""` gives `[""]`; a leading empty
    token appears when the line starts with whitespace; trailing empty
    tokens are dropped, so a blank line gives no tokens.
  - `Split` is proved equal to an independent definition (`Words`, with
    `Lead`).
- `Frequency`: the counting, in two forms.
  - The specification `Frequencies(lines, stopWords)` states how many tokens
    of the text normalise to each key.
  - The imperative token loop (`CountWords`, `CountWord`) does the
    `getOrDefault`/`put` step and is proved to build exactly that table.
- `Format`: the `key + " : " + count` line and the way back from it.
  - Splitting at the first `" : "` recovers each entry of an extracted table.
  - Distinct entries always print as distinct lines.
- `Extractor`: the window's session state as a class `TagExtractor`.
  - Fields: the selected text file, the stop-word set and the frequency
    table. Each is `None` where Java holds `null`.
  - Operations: the four buttons' operations, with the null-gating of
    `extractTags` and the order of effects in `saveTags`.

A file is modelled by what a `BufferedReader` over it delivers:
`TextFile(lines, complete)`. `complete == false` means the reading ended
with an `IOException` after `lines`. A file that cannot be opened is
`TextFile([], false)`. A file dialog's answer is an `Option` (`None` =
cancelled). The save destination is a `Destination`.

Two points of the program's behaviour are easy to miss, and the model keeps both:

- Tokens that normalise to the empty string are counted under the key `""`
  unless `""` is itself a stop word. Examples are `"---"`, an empty line, and
  the leading token of a line that starts with whitespace. A stricter
  extractor would drop them; this program does not.
- When reading the stop-word file fails part-way, the words read so far still
  replace the stop-word set; the previous set is not kept.

## Model

| member | source | states |
|---|---|---|
| Text.LowerAscii | src/TagExtractor.java:105 | lower-casing maps every character independently (A-Z to a-z, all else unchanged), keeping the length, so nothing is trimmed |
| Text.LowerAsciiIdempotent | src/TagExtractor.java:105 | lower-casing twice is lower-casing once |
| Text.LowerAsciiFixes | src/TagExtractor.java:105 | lower-casing leaves a string unchanged exactly when it has no upper-case letter |
| Text.Letters | src/TagExtractor.java:138 | the letter filter returns no more characters than it is given, and only ASCII letters |
| Text.LettersMultiset | src/TagExtractor.java:138 | the filter keeps each ASCII letter as often as it occurs and drops every other character |
| Text.LettersOfLetters | src/TagExtractor.java:138 | a string of ASCII letters passes the filter unchanged |
| Text.Normalize | src/TagExtractor.java:138 | a normalised token consists of the letters a-z only (it may be empty) and is no longer than the token |
| Text.NormalizeChar | src/TagExtractor.java:138 | one character normalises to its lower case if it is an ASCII letter, and to nothing otherwise |
| Text.NormalizeAppend | src/TagExtractor.java:138 | normalisation distributes over concatenation |
| Text.NormalizeIdempotent | src/TagExtractor.java:138 | normalising a normalised token returns it unchanged |
| Text.NormalizeFixesNormal | src/TagExtractor.java:138 | a string is its own normal form if and only if it is made of a-z only |
| Text.NormalizeIgnoresCase | src/TagExtractor.java:138 | lower-casing a token first does not change its normal form |
| Text.LettersLower | src/TagExtractor.java:138 | filtering letters and lower-casing commute |
| Text.TakeWord | src/TagExtractor.java:136 | the first piece of a line holds no whitespace and ends at whitespace or at the end of the line |
| Text.TakeWordPrefix | src/TagExtractor.java:136 | the first piece of a line is a prefix of the line |
| Text.DropWhitespace | src/TagExtractor.java:136 | skipping a separator run never grows the string and stops at a non-whitespace character |
| Text.DropWhitespaceSuffix | src/TagExtractor.java:136 | what a separator run removes is an all-whitespace prefix, and the rest is a suffix of the input |
| Text.DropTrailingEmptySpec | src/TagExtractor.java:136 | split's clean-up removes exactly the trailing empty strings: a prefix is kept, its last element is not empty, and everything removed was empty |
| Text.WordsAreWords | src/TagExtractor.java:136 | the reference words of a line are non-empty and hold no whitespace |
| Text.FieldsAreWords | src/TagExtractor.java:136 | the raw pieces between whitespace runs are the words, framed by an empty piece for leading whitespace and one for trailing whitespace or an empty line |
| Text.Split | src/TagExtractor.java:136 | Java's `line.split("\\s+")`; what it returns is stated by Text.SplitIsWords and Text.SplitTokens |
| Text.SplitIsWords | src/TagExtractor.java:136 | `split("\\s+")` returns the words of the line, preceded by `""` when the line starts with whitespace; an empty line gives `[""]` and a blank line `[]` |
| Text.SplitTokens | src/TagExtractor.java:136 | no token holds whitespace, only the first can be empty, and the result is empty exactly for a non-empty all-whitespace line |
| Frequency.GetOrDefault | src/TagExtractor.java:140 | `getOrDefault`: the stored count of a key, or the default for a missing key; used by Frequency.TableSnoc and Frequency.CountWord |
| Frequency.Frequencies | src/TagExtractor.java:131-142 | the table an extraction builds from the lines and the stop words; what it holds is stated by Frequency.CountsExact, Frequency.CountsKeys and Frequency.FrequenciesOverLines |
| Frequency.TokensSnoc | src/TagExtractor.java:135-136 | reading one more line appends the split of that line to the tokens read so far |
| Frequency.TableSnoc | src/TagExtractor.java:139-140 | counting one more key is the getOrDefault-plus-one `put`, or no change for a stop word |
| Frequency.CountStep | src/TagExtractor.java:137-141 | one pass of the token loop takes the table of the tokens seen to the table of those tokens plus the next one |
| Frequency.CountWords | src/TagExtractor.java:137-142 | the token loop over one line turns the table of the tokens before it into the table of those tokens followed by the line's tokens |
| Frequency.CountWord | src/TagExtractor.java:138-141 | the loop body normalises the token and, unless the result is a stop word, raises its count by one, giving the table with that token added |
| Frequency.KeysAt | src/TagExtractor.java:138 | the key at each position is the normal form of the token at that position |
| Frequency.KeyCountIsPositions | src/TagExtractor.java:137-142 | how often a key occurs is the number of token positions that normalise to it |
| Frequency.CountsExact | src/TagExtractor.java:134-142 | a key is in the table if and only if it is not a stop word and some token normalises to it; its count is exactly that number of tokens, at least one, and the key is made of a-z only |
| Frequency.CountsKeys | src/TagExtractor.java:138-140 | no key of the table is a stop word, every key is made of a-z only, and every count is at least one |
| Frequency.TableWithoutStopWords | src/TagExtractor.java:139 | stop words only remove keys: the table is the table without stop words, minus the stop words |
| Frequency.OnlyNormalStopWordsMatter | src/TagExtractor.java:139 | stop words that are not made of a-z only (such as `" the"`, kept untrimmed) never affect the table |
| Frequency.FrequenciesOverLines | src/TagExtractor.java:135-142 | the count of a key is the sum over the lines of the tokens normalising to it, and a key with none is absent |
| Frequency.KeysAppend | src/TagExtractor.java:138 | the keys of two token runs one after the other are the keys of each, concatenated |
| Frequency.OccurrencesOverParts | src/TagExtractor.java:135-142 | the number of occurrences of a key over all tokens is the sum of its occurrences line by line |
| Frequency.ConcatCons | src/TagExtractor.java:135 | the tokens of the lines are those of the first line followed by those of the rest |
| Format.NatToString | src/TagExtractor.java:156 | a printed count is a non-empty string of decimal digits |
| Format.IntToString | src/TagExtractor.java:156 | a printed integer is non-empty and made of digits and a minus sign |
| Format.ParseNatToString | src/TagExtractor.java:168 | reading back a printed natural number gives the number |
| Format.ParseIntToString | src/TagExtractor.java:168 | reading back a printed integer gives the integer |
| Format.FormatEntry | src/TagExtractor.java:156 | the line `key + " : " + count`; it reads back by Format.ParseFormatEntry and is one-to-one by Format.FormatEntryInjective |
| Format.FindSeparator | src/TagExtractor.java:168 | a separator that is found lies at or after the start position and really is `" : "` |
| Format.FindSeparatorFirst | src/TagExtractor.java:168 | the search finds the first separator when no space comes before it |
| Format.ParseFormatEntry | src/TagExtractor.java:168 | a printed entry whose key holds no space splits at the first `" : "` back into that key and count |
| Format.LastSeparatorOfEntry | src/TagExtractor.java:168 | in a printed entry the last `" : "` is the one straight after the key |
| Format.FormatEntryInjective | src/TagExtractor.java:156 | two entries print as the same line only if they have the same key and count, whatever the keys hold |
| Format.EntryLinesRoundTrip | src/TagExtractor.java:167-169 | when no key holds a space, every printed line parses back to an entry of the table and every entry parses back from its own line |
| Format.FormatTable | src/TagExtractor.java:155-157 | printing a table gives one line per entry, exactly the entry lines, and no line twice, in whatever order the keys are visited |
| Extractor.StopWordSet | src/TagExtractor.java:104-105 | no stop word has an upper-case letter left after lower-casing its line |
| Extractor.StopWordSetSnoc | src/TagExtractor.java:104-105 | reading one more line adds exactly that line's lower-cased form to the stop words |
| Extractor.TagExtractor.constructor | src/TagExtractor.java:17-19 | a new window has no text file, no stop words and no table |
| Extractor.TagExtractor.SelectTextFile | src/TagExtractor.java:79-87 | a chosen file becomes the text file; a cancelled dialog changes nothing |
| Extractor.TagExtractor.LoadStopWords | src/TagExtractor.java:100-112 | the result is exactly the set of lower-cased lines the file delivered, read up to the end or up to a read error, and the error is reported |
| Extractor.TagExtractor.SelectStopWordsFile | src/TagExtractor.java:89-98 | a chosen file's stop words replace the stop-word set, even after a read error, and whether the read failed is returned; a cancelled dialog changes nothing |
| Extractor.TagExtractor.ExtractTags | src/TagExtractor.java:117-150 | without a text file or without stop words nothing changes and nothing is shown; otherwise the table becomes the frequency table of the lines delivered, and the shown lines are exactly its entry lines, none twice |
| Extractor.TagExtractor.DisplayTags | src/TagExtractor.java:152-158 | one shown line per entry of the table, exactly the entry lines, none twice |
| Extractor.TagExtractor.SaveTags | src/TagExtractor.java:160-176 | a cancelled dialog saves nothing, an unwritable file gives "Cannot Save Tags", no table leaves an empty file, and otherwise the file gets one line per entry, exactly the entry lines, none twice |
| Extractor.ExtractTwice | src/TagExtractor.java:131-143 | two extractions on the same selections give the same table, and it is the frequency table of the text and the stop words |
| Extractor.ExtractedKeys | src/TagExtractor.java:138-140 | every key of an extracted table is made of a-z only, is not a stop word, and has a count of at least one |
| Extractor.SavedTableRoundTrip | src/TagExtractor.java:167-169 | every saved line of an extracted table splits on `" : "` back into an entry of the table, and every entry comes back from its own line |

## Left out

- The Swing window is not modelled: the buttons and their listeners, the text area, the message dialogs and the file choosers (src/TagExtractor.java:21-75 and the dialog calls). A dialog's answer is a parameter, and the shown text is returned as lines.
- Real file I/O is not modelled. A file is the lines a reader delivers plus whether an `IOException` ended the reading.
- Extractor.TagExtractor.ExtractTags: the model reads the text file's contents as they were at selection time. The program opens the file only when extraction runs.
- Extractor.TagExtractor.DisplayTags: the shown lines come in an arbitrary order. `HashMap` iteration order is unspecified, so no order is stated.
- Extractor.TagExtractor.SaveTags: the same holds for the order of the saved lines. The file's name in the confirmation message is not modelled.
- Text.LowerAscii: lower-cases ASCII letters only. `String.toLowerCase` also maps non-ASCII upper-case letters and depends on the default locale. Those mappings are outside this model.
- Frequency.CountWord: counts are unbounded integers. Java's `Integer` count would wrap after 2^31 - 1 occurrences of one word.
- Surrogate pairs are not modelled. Java strings are UTF-16, and a Dafny `char` here stands for one character of the text.
- Frequency.CountWords: the program updates its table in place inside the token loop. The model runs the loop over the table value and stores the result in the session's `keywordFrequency` field after each line. No other code reads the table while the loop runs.
- An exception inside the display loop cannot happen: the table is never `null` there. `null` reaches only `saveTags`, and that case is modelled as `EmptyFileLeft`.
