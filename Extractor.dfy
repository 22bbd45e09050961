/** The session state of the tag extractor window (the selected text file,
    the loaded stop words and the last frequency table) and the operations
    its four buttons run on it. Dialogs, the text area and the file system
    are not modelled: a chosen file is given by what reading it delivers. */
module Extractor {
  import opened Wrappers
  import opened Text
  import opened Frequency
  import opened Format

  /** What a BufferedReader over a chosen file delivers: `lines`, and then
      the end of the file when `complete`, an IOException otherwise (a file
      that cannot be opened is TextFile([], false)). */
  datatype TextFile = TextFile(lines: seq<string>, complete: bool)

  /** Which message extractTags ends with. */
  datatype ExtractStatus =
    | NoTextFile     // "You Must Select A Text File"
    | NoStopWords    // "You Must Select A Noise Word File"
    | ReadFailed     // "Error processing the text file.", after a partial count
    | Extracted

  /** The save dialog: cancelled, or a file that can or cannot be opened for writing. */
  datatype Destination = Cancelled | Chosen(writable: bool)

  datatype SaveOutcome =
    | NotSaved                 // the dialog was cancelled
    | CannotSave               // opening the file failed: "Cannot Save Tags"
    | EmptyFileLeft            // no table yet: the file was truncated, then the null table threw
    | Saved(lines: seq<string>)

  /** The stop words a file's lines give: each line lower-cased, nothing
      trimmed, so " the" keeps its space. No stop word has an upper-case
      letter left. */
  function StopWordSet(lines: seq<string>): (words: set<string>)
    ensures forall w :: w in words ==> forall i :: 0 <= i < |w| ==> !IsUpperLetter(w[i])
  {
    set i | 0 <= i < |lines| :: LowerAscii(lines[i])
  }

  /** Reading one more line adds its lower-cased form. */
  lemma StopWordSetSnoc(lines: seq<string>, i: nat)
    requires i < |lines|
    ensures StopWordSet(lines[..i + 1]) == StopWordSet(lines[..i]) + {LowerAscii(lines[i])}
  {
    var before, after := lines[..i], lines[..i + 1];
    assert forall j :: 0 <= j < i ==> after[j] == before[j];
    assert after[i] == lines[i];
  }

  class TagExtractor {
    var selectedTextFile: Option<TextFile>
    var stopWords: Option<set<string>>
    var keywordFrequency: Option<map<string, int>>

    /** The window starts with nothing selected, loaded or extracted. */
    constructor ()
      ensures selectedTextFile == None && stopWords == None && keywordFrequency == None
    {
      selectedTextFile := None;
      stopWords := None;
      keywordFrequency := None;
    }

    /** A file chosen in the dialog becomes the text file; a cancelled dialog changes nothing. */
    method SelectTextFile(choice: Option<TextFile>)
      modifies this`selectedTextFile
      ensures selectedTextFile == if choice.Some? then choice else old(selectedTextFile)
    {
      if choice.Some? {
        selectedTextFile := choice;
      }
    }

    /** Reads every line the file delivers and collects its lower-cased form;
        an IOException ends the reading, and what was read so far is returned. */
    method LoadStopWords(file: TextFile) returns (noiseWords: set<string>, readFailed: bool)
      ensures noiseWords == StopWordSet(file.lines)
      ensures readFailed == !file.complete
    {
      noiseWords := {};
      var i := 0;
      while i < |file.lines|
        invariant 0 <= i <= |file.lines|
        invariant noiseWords == StopWordSet(file.lines[..i])
      {
        StopWordSetSnoc(file.lines, i);
        noiseWords := noiseWords + {LowerAscii(file.lines[i])};
        i := i + 1;
      }
      assert file.lines[..i] == file.lines;
      readFailed := !file.complete;
    }

    /** A chosen stop-word file replaces the stop words, even when reading it
        failed part-way, and `readFailed` tells whether "Cannot Load Noise
        Words File." was shown; a cancelled dialog changes nothing. */
    method SelectStopWordsFile(choice: Option<TextFile>) returns (readFailed: bool)
      modifies this`stopWords
      ensures stopWords == if choice.Some? then Some(StopWordSet(choice.value.lines)) else old(stopWords)
      ensures readFailed == (choice.Some? && !choice.value.complete)
    {
      readFailed := false;
      if choice.Some? {
        var words;
        words, readFailed := LoadStopWords(choice.value);
        stopWords := Some(words);
      }
    }

    /** Refuses to run without a text file or without stop words, changing
        nothing. Otherwise counts, in a fresh table, every token of every
        line the text file delivers whose normal form is not a stop word,
        and shows the table. */
    method ExtractTags() returns (status: ExtractStatus, shown: seq<string>)
      modifies this`keywordFrequency
      ensures status == (if selectedTextFile.None? then NoTextFile
                         else if stopWords.None? then NoStopWords
                         else if !selectedTextFile.value.complete then ReadFailed
                         else Extracted)
      ensures status == NoTextFile || status == NoStopWords ==>
        keywordFrequency == old(keywordFrequency) && shown == []
      ensures status == ReadFailed || status == Extracted ==>
        && keywordFrequency == Some(Frequencies(selectedTextFile.value.lines, stopWords.value))
        && |shown| == |keywordFrequency.value|
        && (forall l :: l in shown <==> l in EntryLines(keywordFrequency.value))
        && (forall i, j :: 0 <= i < j < |shown| ==> shown[i] != shown[j])
    {
      if selectedTextFile.None? {
        return NoTextFile, [];
      }
      if stopWords.None? {
        return NoStopWords, [];
      }
      var file := selectedTextFile.value;
      var stop := stopWords.value;
      keywordFrequency := Some(map[]);
      var i := 0;
      while i < |file.lines|
        invariant 0 <= i <= |file.lines|
        invariant keywordFrequency == Some(Table(Keys(Tokens(file.lines[..i])), stop))
      {
        var words := Split(file.lines[i]);
        var freq := CountWords(keywordFrequency.value, words, stop, Tokens(file.lines[..i]));
        keywordFrequency := Some(freq);
        TokensSnoc(file.lines, i);
        i := i + 1;
      }
      assert file.lines[..i] == file.lines;
      status := if file.complete then Extracted else ReadFailed;
      shown := DisplayTags();
    }

    /** One line `key : count` per entry of the table. */
    method DisplayTags() returns (shown: seq<string>)
      requires keywordFrequency.Some?
      ensures |shown| == |keywordFrequency.value|
      ensures forall l :: l in shown <==> l in EntryLines(keywordFrequency.value)
      ensures forall i, j :: 0 <= i < j < |shown| ==> shown[i] != shown[j]
    {
      shown := FormatTable(keywordFrequency.value);
    }

    /** Writes one line `key : count` per entry of the table to the chosen
        file. The PrintWriter is opened before the table is read, so with no
        table yet the file is left empty. */
    method SaveTags(destination: Destination) returns (outcome: SaveOutcome)
      ensures destination == Cancelled ==> outcome == NotSaved
      ensures destination == Chosen(false) ==> outcome == CannotSave
      ensures destination == Chosen(true) && keywordFrequency.None? ==> outcome == EmptyFileLeft
      ensures destination == Chosen(true) && keywordFrequency.Some? ==>
        && outcome.Saved?
        && |outcome.lines| == |keywordFrequency.value|
        && (forall l :: l in outcome.lines <==> l in EntryLines(keywordFrequency.value))
        && (forall i, j :: 0 <= i < j < |outcome.lines| ==> outcome.lines[i] != outcome.lines[j])
    {
      match destination
      case Cancelled =>
        outcome := NotSaved;
      case Chosen(writable) =>
        if !writable {
          outcome := CannotSave;
        } else if keywordFrequency.None? {
          outcome := EmptyFileLeft;
        } else {
          var lines := FormatTable(keywordFrequency.value);
          outcome := Saved(lines);
        }
    }
  }

  /** Extraction depends on nothing but the text and the stop words: running
      it twice on the same selections gives the same table. */
  method ExtractTwice(text: TextFile, stopFile: TextFile) returns (first: map<string, int>, second: map<string, int>)
    ensures first == second
    ensures first == Frequencies(text.lines, StopWordSet(stopFile.lines))
  {
    var session := new TagExtractor();
    session.SelectTextFile(Some(text));
    var _ := session.SelectStopWordsFile(Some(stopFile));
    var _, _ := session.ExtractTags();
    first := session.keywordFrequency.value;
    var _, _ := session.ExtractTags();
    second := session.keywordFrequency.value;
  }

  /** Every key of an extracted table is made of the letters a-z (the empty
      key included), none is a stop word, and every count is at least one. */
  lemma ExtractedKeys(lines: seq<string>, stopWords: set<string>)
    ensures var m := Frequencies(lines, stopWords);
      forall k :: k in m ==> IsNormal(k) && k !in stopWords && m[k] >= 1
  {
    CountsKeys(Tokens(lines), stopWords);
  }

  /** The saved lines of an extracted table read back, split on " : ", as
      exactly its entries. */
  lemma SavedTableRoundTrip(lines: seq<string>, stopWords: set<string>)
    ensures var m := Frequencies(lines, stopWords);
      && (forall l :: l in EntryLines(m) ==>
            ParseEntry(l).Some? && ParseEntry(l).value.key in m && m[ParseEntry(l).value.key] == ParseEntry(l).value.count)
      && (forall k :: k in m ==> ParseEntry(FormatEntry(k, m[k])) == Some(Entry(k, m[k])))
  {
    var m := Frequencies(lines, stopWords);
    ExtractedKeys(lines, stopWords);
    forall k | k in m ensures HasNoSpace(k) {
      NormalHasNoSpace(k);
    }
    EntryLinesRoundTrip(m);
  }
}
