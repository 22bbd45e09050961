/** Characters, ASCII lower-casing, token normalisation and the whitespace
    split that the tag extractor applies to every line of the text file. */
module Text {

  /** Java's regex class `\s` (without UNICODE_CHARACTER_CLASS): [ \t\n\x0B\f\r]. */
  predicate IsWhitespace(c: char) {
    c == ' ' || c == '\t' || c == '\n' || c == '\U{000B}' || c == '\U{000C}' || c == '\r'
  }

  predicate IsUpperLetter(c: char) { 'A' <= c <= 'Z' }

  predicate IsLowerLetter(c: char) { 'a' <= c <= 'z' }

  /** The characters the regex `[^a-zA-Z]` does NOT match. */
  predicate IsAsciiLetter(c: char) { IsUpperLetter(c) || IsLowerLetter(c) }

  predicate HasNoWhitespace(s: string) {
    forall i :: 0 <= i < |s| ==> !IsWhitespace(s[i])
  }

  predicate AllWhitespace(s: string) {
    forall i :: 0 <= i < |s| ==> IsWhitespace(s[i])
  }

  /** A normalised token: nothing but the letters a-z (possibly none). */
  predicate IsNormal(w: string) {
    forall i :: 0 <= i < |w| ==> IsLowerLetter(w[i])
  }

  // ---------------------------------------------------------------------------
  // Lower-casing
  // ---------------------------------------------------------------------------

  /** `Character.toLowerCase` restricted to ASCII: only A-Z move. */
  function LowerChar(c: char): (d: char)
    ensures IsUpperLetter(c) ==> IsLowerLetter(d) && d as int == c as int + 32
    ensures !IsUpperLetter(c) ==> d == c
  {
    if IsUpperLetter(c) then (c as int + 32) as char else c
  }

  /** `String.toLowerCase` on ASCII: a character-for-character map, so the
      length is kept and nothing is trimmed. */
  function LowerAscii(s: string): (r: string)
    ensures |r| == |s|
    ensures forall i :: 0 <= i < |s| ==> r[i] == LowerChar(s[i])
  {
    if s == [] then [] else [LowerChar(s[0])] + LowerAscii(s[1..])
  }

  lemma {:induction false} LowerAsciiIdempotent(s: string)
    ensures LowerAscii(LowerAscii(s)) == LowerAscii(s)
  {
    var r := LowerAscii(s);
    assert forall i :: 0 <= i < |r| ==> LowerAscii(r)[i] == r[i];
  }

  /** Lower-casing leaves a string alone exactly when it has no upper-case letter. */
  lemma LowerAsciiFixes(s: string)
    ensures LowerAscii(s) == s <==> forall i :: 0 <= i < |s| ==> !IsUpperLetter(s[i])
  {
    if forall i :: 0 <= i < |s| ==> !IsUpperLetter(s[i]) {
      assert forall i :: 0 <= i < |s| ==> LowerAscii(s)[i] == s[i];
    } else {
      var i :| 0 <= i < |s| && IsUpperLetter(s[i]);
      assert LowerAscii(s)[i] != s[i];
    }
  }

  // ---------------------------------------------------------------------------
  // Normalisation: replaceAll("[^a-zA-Z]", "").toLowerCase()
  // ---------------------------------------------------------------------------

  /** The ASCII letters of `s`, in order: `s.replaceAll("[^a-zA-Z]", "")`. */
  function Letters(s: string): (r: string)
    ensures |r| <= |s|
    ensures forall i :: 0 <= i < |r| ==> IsAsciiLetter(r[i])
  {
    if s == [] then []
    else if IsAsciiLetter(s[0]) then [s[0]] + Letters(s[1..]) else Letters(s[1..])
  }

  /** The filter keeps every letter, as often as it occurs, and nothing else. */
  lemma {:induction false} LettersMultiset(s: string)
    ensures forall c :: multiset(Letters(s))[c] == (if IsAsciiLetter(c) then multiset(s)[c] else 0)
  {
    if s != [] {
      LettersMultiset(s[1..]);
      assert s == [s[0]] + s[1..];
    }
  }

  lemma {:induction false} LettersAppend(a: string, b: string)
    ensures Letters(a + b) == Letters(a) + Letters(b)
  {
    if a == [] {
      assert a + b == b;
    } else {
      assert (a + b)[1..] == a[1..] + b;
      LettersAppend(a[1..], b);
    }
  }

  /** A string made only of ASCII letters passes the filter untouched. */
  lemma {:induction false} LettersOfLetters(s: string)
    requires forall i :: 0 <= i < |s| ==> IsAsciiLetter(s[i])
    ensures Letters(s) == s
  {
    if s != [] {
      LettersOfLetters(s[1..]);
    }
  }

  /** The key a token is counted under. */
  function Normalize(token: string): (w: string)
    ensures IsNormal(w)
    ensures |w| <= |token|
  {
    LowerAscii(Letters(token))
  }

  /** Normalisation works character by character: a letter becomes its lower
      case, anything else disappears. */
  lemma NormalizeChar(c: char)
    ensures Normalize([c]) == if IsAsciiLetter(c) then [LowerChar(c)] else []
  {
    assert [c][1..] == [];
  }

  lemma NormalizeAppend(a: string, b: string)
    ensures Normalize(a + b) == Normalize(a) + Normalize(b)
  {
    LettersAppend(a, b);
    LowerAsciiAppend(Letters(a), Letters(b));
  }

  lemma LowerAsciiAppend(a: string, b: string)
    ensures LowerAscii(a + b) == LowerAscii(a) + LowerAscii(b)
  {
    assert forall i :: 0 <= i < |a + b| ==> LowerAscii(a + b)[i] == (LowerAscii(a) + LowerAscii(b))[i];
  }

  /** Normalisation is idempotent. */
  lemma NormalizeIdempotent(token: string)
    ensures Normalize(Normalize(token)) == Normalize(token)
  {
    NormalizeFixesNormal(Normalize(token));
  }

  /** The normalised tokens are exactly the fixed points of Normalize. */
  lemma NormalizeFixesNormal(w: string)
    ensures Normalize(w) == w <==> IsNormal(w)
  {
    if IsNormal(w) {
      LettersOfLetters(w);
      LowerAsciiFixes(w);
    }
  }

  /** Case does not matter to normalisation. */
  lemma NormalizeIgnoresCase(token: string)
    ensures Normalize(LowerAscii(token)) == Normalize(token)
  {
    LettersLower(token);
    LowerAsciiIdempotent(Letters(token));
  }

  lemma {:induction false} LettersLower(s: string)
    ensures Letters(LowerAscii(s)) == LowerAscii(Letters(s))
  {
    if s != [] {
      LettersLower(s[1..]);
      assert LowerAscii(s) == [LowerChar(s[0])] + LowerAscii(s[1..]);
      assert LowerAscii(s)[1..] == LowerAscii(s[1..]);
    }
  }

  // ---------------------------------------------------------------------------
  // Splitting: line.split("\\s+")
  // ---------------------------------------------------------------------------

  /** The longest prefix of `s` without whitespace. */
  function TakeWord(s: string): (w: string)
    ensures |w| <= |s| && HasNoWhitespace(w)
    ensures |w| < |s| ==> IsWhitespace(s[|w|])
  {
    if s == [] || IsWhitespace(s[0]) then [] else [s[0]] + TakeWord(s[1..])
  }

  /** `s` without its longest all-whitespace prefix. */
  function DropWhitespace(s: string): (r: string)
    ensures |r| <= |s|
    ensures s != [] && IsWhitespace(s[0]) ==> |r| < |s|
    ensures r != [] ==> !IsWhitespace(r[0])
  {
    if s != [] && IsWhitespace(s[0]) then DropWhitespace(s[1..]) else s
  }

  /** What DropWhitespace removes is a whitespace prefix. */
  lemma {:induction false} DropWhitespaceSuffix(s: string)
    ensures var r := DropWhitespace(s); r == s[|s| - |r|..] && AllWhitespace(s[..|s| - |r|])
  {
    if s != [] && IsWhitespace(s[0]) {
      DropWhitespaceSuffix(s[1..]);
    }
  }

  /** The pieces between the maximal whitespace runs of `s`, before Java
      removes trailing empty strings: a run at the start gives a leading "",
      a run at the end (or the empty string) a trailing "". */
  function Fields(s: string): (fs: seq<string>)
    ensures fs != []
    decreases |s|
  {
    var w := TakeWord(s);
    var rest := s[|w|..];
    if rest == [] then [w] else [w] + Fields(DropWhitespace(rest))
  }

  /** What `String.split` with limit 0 does to its pieces: removes every
      trailing empty string. */
  function DropTrailingEmpty(ts: seq<string>): (r: seq<string>)
    ensures |r| <= |ts|
  {
    if ts != [] && ts[|ts| - 1] == "" then DropTrailingEmpty(ts[..|ts| - 1]) else ts
  }

  /** Exactly the trailing empty strings go. */
  lemma {:induction false} DropTrailingEmptySpec(ts: seq<string>)
    ensures var r := DropTrailingEmpty(ts);
      && r == ts[..|r|]
      && (r != [] ==> r[|r| - 1] != "")
      && (forall i :: |r| <= i < |ts| ==> ts[i] == "")
    decreases |ts|
  {
    if ts != [] && ts[|ts| - 1] == "" {
      DropTrailingEmptySpec(ts[..|ts| - 1]);
    }
  }

  /** `line.split("\\s+")`: a string with no match comes back whole (so ""
      gives [""]); otherwise the pieces with trailing empty strings removed. */
  function Split(line: string): (tokens: seq<string>)
  {
    if HasNoWhitespace(line) then [line] else DropTrailingEmpty(Fields(line))
  }

  // Reference definition of the words of a line, independent of Java's algorithm.

  /** The maximal non-empty whitespace-free runs of `s`, left to right. */
  function Words(s: string): (ws: seq<string>)
    decreases |s|
  {
    if s == [] then []
    else if IsWhitespace(s[0]) then Words(s[1..])
    else var w := TakeWord(s); [w] + Words(s[|w|..])
  }

  /** Words are non-empty and hold no whitespace. */
  lemma {:induction false} WordsAreWords(s: string)
    ensures forall i :: 0 <= i < |Words(s)| ==> Words(s)[i] != "" && HasNoWhitespace(Words(s)[i])
    decreases |s|
  {
    if s == [] {
    } else if IsWhitespace(s[0]) {
      WordsAreWords(s[1..]);
    } else {
      WordsAreWords(s[|TakeWord(s)|..]);
    }
  }

  /** The empty token Java puts in front when the line starts with whitespace. */
  function Lead(s: string): (lead: seq<string>) {
    if s != [] && IsWhitespace(s[0]) then [""] else []
  }

  function Trail(s: string): (trail: seq<string>) {
    if s == [] || IsWhitespace(s[|s| - 1]) then [""] else []
  }

  lemma {:induction false} WordsDropWhitespace(s: string)
    ensures Words(DropWhitespace(s)) == Words(s)
    decreases |s|
  {
    if s != [] && IsWhitespace(s[0]) {
      WordsDropWhitespace(s[1..]);
    }
  }

  lemma {:induction false} WordsNoWhitespace(s: string)
    requires HasNoWhitespace(s)
    ensures Words(s) == if s == [] then [] else [s]
  {
    if s != [] {
      TakeWordNoWhitespace(s);
    }
  }

  lemma {:induction false} TakeWordNoWhitespace(s: string)
    requires HasNoWhitespace(s)
    ensures TakeWord(s) == s
  {
    if s != [] {
      TakeWordNoWhitespace(s[1..]);
    }
  }

  /** The raw pieces are the words framed by the leading and trailing empties. */
  lemma {:induction false} FieldsAreWords(s: string)
    ensures Fields(s) == Lead(s) + Words(s) + Trail(s)
    decreases |s|, 2
  {
    if s == [] {
    } else if IsWhitespace(s[0]) {
      FieldsAfterGap(s);
    } else if |TakeWord(s)| == |s| {
      TakeWordPrefix(s);
      WordsNoWhitespace(s);
    } else {
      FieldsAfterWord(s);
    }
  }

  lemma {:induction false} TakeWordPrefix(s: string)
    ensures TakeWord(s) == s[..|TakeWord(s)|]
  {
    if s != [] && !IsWhitespace(s[0]) {
      TakeWordPrefix(s[1..]);
    }
  }

  lemma {:induction false} FieldsAfterGap(s: string)
    requires s != [] && IsWhitespace(s[0])
    ensures Fields(s) == Lead(s) + Words(s) + Trail(s)
    decreases |s|, 1
  {
    assert TakeWord(s) == [];
    var d := DropWhitespace(s);
    assert Fields(d) == Words(s) + Trail(s) by {
      FieldsAreWords(d);
      assert Lead(d) == [];
      WordsDropWhitespace(s);
      TrailOfDrop(s);
    }
    assert Fields(s) == [""] + Fields(d);
  }

  lemma {:induction false} FieldsAfterWord(s: string)
    requires s != [] && !IsWhitespace(s[0]) && |TakeWord(s)| < |s|
    ensures Fields(s) == Lead(s) + Words(s) + Trail(s)
    decreases |s|, 1
  {
    var w := TakeWord(s);
    var rest := s[|w|..];
    var d := DropWhitespace(rest);
    assert Fields(d) == Words(rest) + Trail(s) by {
      FieldsAreWords(d);
      assert Lead(d) == [];
      WordsDropWhitespace(rest);
      TrailOfDrop(rest);
      TrailOfSuffix(s, rest);
    }
    assert Fields(s) == [w] + Fields(d);
    assert Words(s) == [w] + Words(rest);
    assert Lead(s) == [];
  }

  lemma TrailOfSuffix(s: string, t: string)
    requires t != [] && |t| <= |s| && t == s[|s| - |t|..]
    ensures Trail(t) == Trail(s)
  {
    assert t[|t| - 1] == s[|s| - 1];
  }

  lemma TrailOfDrop(x: string)
    requires x != []
    ensures Trail(DropWhitespace(x)) == Trail(x)
  {
    var d := DropWhitespace(x);
    DropWhitespaceSuffix(x);
    if d == [] {
      assert x[..|x|] == x;
      assert IsWhitespace(x[|x| - 1]);
    } else {
      TrailOfSuffix(x, d);
    }
  }

  lemma {:induction false} DropTrailingEmptyOfWords(lead: seq<string>, ws: seq<string>, trail: seq<string>)
    requires forall i :: 0 <= i < |lead| ==> lead[i] == ""
    requires forall i :: 0 <= i < |trail| ==> trail[i] == ""
    requires forall i :: 0 <= i < |ws| ==> ws[i] != ""
    ensures DropTrailingEmpty(lead + ws + trail) == if ws == [] then [] else lead + ws
    decreases |trail| + |lead|
  {
    var t := lead + ws + trail;
    if trail != [] {
      assert t[..|t| - 1] == lead + ws + trail[..|trail| - 1];
      DropTrailingEmptyOfWords(lead, ws, trail[..|trail| - 1]);
    } else if ws == [] {
      if lead != [] {
        assert t[..|t| - 1] == lead[..|lead| - 1] + ws + trail;
        DropTrailingEmptyOfWords(lead[..|lead| - 1], ws, trail);
      }
    } else {
      assert t == lead + ws;
    }
  }

  /** What `line.split("\\s+")` returns: the words of the line, after one
      empty token if the line starts with whitespace; the empty line gives
      one empty token and a blank line none. */
  lemma SplitIsWords(line: string)
    ensures Split(line) ==
      if line == [] then [""]
      else if Words(line) == [] then []
      else Lead(line) + Words(line)
  {
    if HasNoWhitespace(line) {
      WordsNoWhitespace(line);
    } else {
      FieldsAreWords(line);
      WordsAreWords(line);
      DropTrailingEmptyOfWords(Lead(line), Words(line), Trail(line));
    }
  }

  /** Tokens never contain whitespace; only the first can be empty. */
  lemma SplitTokens(line: string)
    ensures forall i :: 0 <= i < |Split(line)| ==> HasNoWhitespace(Split(line)[i])
    ensures forall i :: 1 <= i < |Split(line)| ==> Split(line)[i] != ""
    ensures Split(line) == [] <==> line != [] && AllWhitespace(line)
  {
    SplitIsWords(line);
    WordsAreWords(line);
    if line != [] && AllWhitespace(line) {
      WordsAllWhitespace(line);
    } else if line != [] {
      var i :| 0 <= i < |line| && !IsWhitespace(line[i]);
      WordsHasWord(line, i);
    }
  }

  lemma {:induction false} WordsAllWhitespace(s: string)
    requires AllWhitespace(s)
    ensures Words(s) == []
  {
    if s != [] {
      WordsAllWhitespace(s[1..]);
    }
  }

  lemma {:induction false} WordsHasWord(s: string, i: nat)
    requires i < |s| && !IsWhitespace(s[i])
    ensures Words(s) != []
    decreases |s|
  {
    if IsWhitespace(s[0]) {
      WordsHasWord(s[1..], i - 1);
    }
  }
}
