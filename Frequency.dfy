/** What the extraction loop computes: for every normalised token that is
    not a stop word, the number of tokens of the text that normalise to it. */
module Frequency {
  import opened Text

  /** The split of every line. */
  function SplitAll(lines: seq<string>): (parts: seq<seq<string>>)
    ensures |parts| == |lines|
  {
    seq(|lines|, i requires 0 <= i < |lines| => Split(lines[i]))
  }

  /** The parts one after the other. */
  function Concat<T>(parts: seq<seq<T>>): (r: seq<T>)
    decreases |parts|
  {
    if parts == [] then [] else Concat(parts[..|parts| - 1]) + parts[|parts| - 1]
  }

  /** All tokens of the lines, in reading order. */
  function Tokens(lines: seq<string>): (tokens: seq<string>) {
    Concat(SplitAll(lines))
  }

  /** The key of every token, in order. */
  function Keys(tokens: seq<string>): (ks: seq<string>)
    ensures |ks| == |tokens|
    decreases |tokens|
  {
    if tokens == [] then [] else Keys(tokens[..|tokens| - 1]) + [Normalize(tokens[|tokens| - 1])]
  }

  /** The frequency table over a sequence of keys: every key that is not a
      stop word, with the number of times it occurs. */
  function Table(keys: seq<string>, stopWords: set<string>): (m: map<string, int>) {
    map k | k in keys && k !in stopWords :: multiset(keys)[k]
  }

  /** The table an extraction over these lines builds. */
  function Frequencies(lines: seq<string>, stopWords: set<string>): (m: map<string, int>) {
    Table(Keys(Tokens(lines)), stopWords)
  }

  /** `m.getOrDefault(w, d)` */
  function GetOrDefault(m: map<string, int>, w: string, d: int): (v: int) {
    if w in m then m[w] else d
  }

  /** The positions of the tokens that normalise to `key`. */
  function Positions(tokens: seq<string>, key: string): (ps: set<nat>) {
    set i: nat | i < |tokens| && Normalize(tokens[i]) == key
  }

  // ---------------------------------------------------------------------------
  // The loop steps
  // ---------------------------------------------------------------------------

  /** The tokens of one more line follow those of the lines before it. */
  lemma TokensSnoc(lines: seq<string>, i: nat)
    requires i < |lines|
    ensures Tokens(lines[..i + 1]) == Tokens(lines[..i]) + Split(lines[i])
  {
    assert SplitAll(lines[..i + 1])[..i] == SplitAll(lines[..i]);
  }

  lemma KeysSnoc(tokens: seq<string>, t: string)
    ensures Keys(tokens + [t]) == Keys(tokens) + [Normalize(t)]
  {
    assert (tokens + [t])[..|tokens|] == tokens;
  }

  /** One step of the extraction loop: counting one more key is the
      getOrDefault-and-put update, skipped for stop words. */
  lemma TableSnoc(keys: seq<string>, w: string, stopWords: set<string>)
    ensures var m := Table(keys, stopWords);
      Table(keys + [w], stopWords) ==
        if w in stopWords then m else m[w := GetOrDefault(m, w, 0) + 1]
  {
    var m := Table(keys, stopWords);
    var m' := Table(keys + [w], stopWords);
    assert multiset(keys + [w]) == multiset(keys) + multiset{w};
    if w !in stopWords {
      assert w !in keys ==> multiset(keys)[w] == 0;
      assert m'.Keys == m.Keys + {w};
    } else {
      assert m'.Keys == m.Keys;
    }
  }

  lemma SnocSlice<T>(a: seq<T>, b: seq<T>, j: nat)
    requires j < |b|
    ensures a + b[..j] + [b[j]] == a + b[..j + 1]
  {
    assert b[..j + 1] == b[..j] + [b[j]];
  }

  /** One pass of the inner extraction loop: counting token `t` after the
      tokens `seen` updates their table `m` by getOrDefault-and-put, unless
      the token's normal form is a stop word. */
  lemma CountStep(m: map<string, int>, seen: seq<string>, t: string, stopWords: set<string>)
    requires m == Table(Keys(seen), stopWords)
    ensures var w := Normalize(t);
      Table(Keys(seen + [t]), stopWords) ==
        if w in stopWords then m else m[w := GetOrDefault(m, w, 0) + 1]
  {
    KeysSnoc(seen, t);
    TableSnoc(Keys(seen), Normalize(t), stopWords);
  }

  /** The loop over the tokens of one line, on the table built so far from
      the tokens `before`. */
  method CountWords(freq0: map<string, int>, words: seq<string>, stop: set<string>, ghost before: seq<string>)
    returns (freq: map<string, int>)
    requires freq0 == Table(Keys(before), stop)
    ensures freq == Table(Keys(before + words), stop)
  {
    freq := freq0;
    ghost var seen := before;
    var j := 0;
    while j < |words|
      invariant 0 <= j <= |words|
      invariant seen == before + words[..j]
      invariant freq == Table(Keys(seen), stop)
    {
      freq := CountWord(freq, words[j], stop, seen);
      SnocSlice(before, words, j);
      seen := seen + [words[j]];
      j := j + 1;
    }
    assert words[..j] == words;
  }

  /** The body of the token loop: the token's normal form, unless it is a
      stop word, has its count raised by one (`getOrDefault` and `put`). */
  method CountWord(freq0: map<string, int>, token: string, stop: set<string>, ghost seen: seq<string>)
    returns (freq: map<string, int>)
    requires freq0 == Table(Keys(seen), stop)
    ensures freq == Table(Keys(seen + [token]), stop)
  {
    freq := freq0;
    var word := Normalize(token);
    CountStep(freq, seen, token, stop);
    if word !in stop {
      freq := freq[word := GetOrDefault(freq, word, 0) + 1];
    }
  }

  // ---------------------------------------------------------------------------
  // Properties of the table
  // ---------------------------------------------------------------------------

  lemma {:induction false} KeysAt(tokens: seq<string>, i: nat)
    requires i < |tokens|
    ensures Keys(tokens)[i] == Normalize(tokens[i])
    decreases |tokens|
  {
    var n := |tokens| - 1;
    if i < n {
      KeysAt(tokens[..n], i);
    }
  }

  lemma PositionsSnoc(tokens: seq<string>, t: string, key: string)
    ensures Positions(tokens + [t], key) ==
      Positions(tokens, key) + if Normalize(t) == key then {|tokens|} else {}
  {
    var ts := tokens + [t];
    forall i: nat | i < |tokens| ensures ts[i] == tokens[i] {}
  }

  /** How often a key occurs is the number of tokens normalising to it. */
  lemma {:induction false} KeyCountIsPositions(tokens: seq<string>, key: string)
    ensures multiset(Keys(tokens))[key] == |Positions(tokens, key)|
    decreases |tokens|
  {
    if tokens != [] {
      var n := |tokens| - 1;
      var init := tokens[..n];
      KeyCountIsPositions(init, key);
      KeysSnoc(init, tokens[n]);
      assert init + [tokens[n]] == tokens;
      PositionsSnoc(init, tokens[n], key);
      var hit: set<nat> := if Normalize(tokens[n]) == key then {n} else {};
      assert Positions(init, key) !! hit;
    }
  }

  /** The table holds exactly the keys of the tokens that are not stop words,
      each with its exact number of tokens, which is at least one. Keys are
      made of the letters a-z only (the empty key included). */
  lemma CountsExact(tokens: seq<string>, stopWords: set<string>, key: string)
    ensures var m := Table(Keys(tokens), stopWords);
      && (key in m <==> key !in stopWords && |Positions(tokens, key)| > 0)
      && (key in m ==> IsNormal(key) && m[key] == |Positions(tokens, key)| >= 1)
  {
    var ks := Keys(tokens);
    KeyCountIsPositions(tokens, key);
    if key in ks {
      var i :| 0 <= i < |ks| && ks[i] == key;
      KeysAt(tokens, i);
    }
  }

  /** No key of the table is a stop word, every key is normal and every
      count is at least one. */
  lemma CountsKeys(tokens: seq<string>, stopWords: set<string>)
    ensures var m := Table(Keys(tokens), stopWords);
      forall k :: k in m ==> k !in stopWords && IsNormal(k) && m[k] >= 1
  {
    var m := Table(Keys(tokens), stopWords);
    forall k | k in m ensures k !in stopWords && IsNormal(k) && m[k] >= 1 {
      CountsExact(tokens, stopWords, k);
    }
  }

  /** Stop words only remove keys: every other count is the count without
      any stop words. */
  lemma TableWithoutStopWords(keys: seq<string>, stopWords: set<string>)
    ensures Table(keys, stopWords) == Table(keys, {}) - stopWords
  {
  }

  /** Only normal stop words matter: a stop word with a space, a digit, an
      upper-case letter or punctuation in it (a stop-word line " the", say)
      never matches a normalised token. */
  lemma OnlyNormalStopWordsMatter(tokens: seq<string>, stopWords: set<string>)
    ensures Table(Keys(tokens), stopWords) == Table(Keys(tokens), set w | w in stopWords && IsNormal(w))
  {
    var ks := Keys(tokens);
    forall k | k in ks ensures IsNormal(k) {
      var i :| 0 <= i < |ks| && ks[i] == k;
      KeysAt(tokens, i);
    }
  }

  /** The tokens normalising to `key`, part by part. */
  function PartOccurrences(parts: seq<seq<string>>, key: string): (n: nat)
    decreases |parts|
  {
    if parts == [] then 0 else multiset(Keys(parts[0]))[key] + PartOccurrences(parts[1..], key)
  }

  /** The frequency of a key that is not a stop word is the number of its
      tokens summed over the lines of the text; a key with none is absent. */
  lemma FrequenciesOverLines(lines: seq<string>, stopWords: set<string>, key: string)
    requires key !in stopWords
    ensures var m, n := Frequencies(lines, stopWords), PartOccurrences(SplitAll(lines), key);
      (key in m ==> m[key] == n) && (key !in m <==> n == 0)
  {
    OccurrencesOverParts(SplitAll(lines), key);
  }

  lemma {:induction false} KeysAppend(a: seq<string>, b: seq<string>)
    ensures Keys(a + b) == Keys(a) + Keys(b)
    decreases |b|
  {
    if b == [] {
      assert a + b == a;
    } else {
      var n := |b| - 1;
      assert (a + b)[..|a + b| - 1] == a + b[..n];
      KeysAppend(a, b[..n]);
    }
  }

  lemma {:induction false} OccurrencesOverParts(parts: seq<seq<string>>, key: string)
    ensures multiset(Keys(Concat(parts)))[key] == PartOccurrences(parts, key)
    decreases |parts|
  {
    if parts != [] {
      OccurrencesOverParts(parts[1..], key);
      ConcatCons(parts);
      KeysAppend(parts[0], Concat(parts[1..]));
    }
  }

  lemma {:induction false} ConcatCons<T>(parts: seq<seq<T>>)
    requires parts != []
    ensures Concat(parts) == parts[0] + Concat(parts[1..])
    decreases |parts|
  {
    var n := |parts| - 1;
    if n == 0 {
      assert parts[1..] == [] && parts[..n] == [];
    } else {
      ConcatCons(parts[..n]);
      assert parts[..n][1..] == parts[1..][..n - 1];
    }
  }
}
