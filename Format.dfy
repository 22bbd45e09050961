/** The line `key + " : " + count` that displayTags and saveTags print for
    every entry of the frequency table, and the way back from such a line. */
module Format {
  import opened Wrappers
  import opened Text

  const Separator: string := " : "

  /** The separator " : " starts at position `p` of `line`. */
  predicate SeparatorAt(line: string, p: nat) {
    p + 3 <= |line| && line[p] == ' ' && line[p + 1] == ':' && line[p + 2] == ' '
  }

  predicate IsDigit(c: char) { '0' <= c <= '9' }

  function DigitChar(d: nat): (c: char)
    requires d < 10
    ensures IsDigit(c)
  {
    ('0' as int + d) as char
  }

  /** Decimal digits of `n`, most significant first, no leading zero. */
  function NatToString(n: nat): (s: string)
    ensures s != [] && forall i :: 0 <= i < |s| ==> IsDigit(s[i])
    decreases n
  {
    if n < 10 then [DigitChar(n)] else NatToString(n / 10) + [DigitChar(n % 10)]
  }

  /** `Integer.toString` as string concatenation uses it: a minus sign then the
      digits for a negative value. */
  function IntToString(i: int): (s: string)
    ensures s != [] && forall k :: 0 <= k < |s| ==> IsDigit(s[k]) || s[k] == '-'
  {
    if i < 0 then "-" + NatToString(-i) else NatToString(i)
  }

  function DigitValue(c: char): (d: nat)
    requires IsDigit(c)
    ensures d < 10
  {
    c as int - '0' as int
  }

  /** The value of a string of decimal digits. */
  function DigitsValue(s: string): (n: nat)
    requires forall i :: 0 <= i < |s| ==> IsDigit(s[i])
    decreases |s|
  {
    if s == [] then 0 else DigitsValue(s[..|s| - 1]) * 10 + DigitValue(s[|s| - 1])
  }

  function ParseNat(s: string): (r: Option<nat>) {
    if s != [] && forall i :: 0 <= i < |s| ==> IsDigit(s[i]) then Some(DigitsValue(s)) else None
  }

  /** Reads back a printed integer: an optional minus sign, then decimal digits. */
  function ParseInt(s: string): (r: Option<int>) {
    if s != [] && s[0] == '-' then
      match ParseNat(s[1..])
      case Some(n) => Some(-(n as int))
      case None => None
    else
      match ParseNat(s)
      case Some(n) => Some(n as int)
      case None => None
  }

  lemma {:induction false} ParseNatToString(n: nat)
    ensures ParseNat(NatToString(n)) == Some(n)
    decreases n
  {
    var s := NatToString(n);
    var init := s[..|s| - 1];
    assert DigitValue(s[|s| - 1]) == n % 10;
    if n < 10 {
      assert init == [];
    } else {
      assert init == NatToString(n / 10);
      ParseNatToString(n / 10);
      assert DigitsValue(init) == n / 10;
    }
    assert DigitsValue(s) == DigitsValue(init) * 10 + n % 10;
  }

  /** Reading back a printed integer gives the integer. */
  lemma ParseIntToString(i: int)
    ensures ParseInt(IntToString(i)) == Some(i)
  {
    if i < 0 {
      ParseNatToString(-i);
      assert IntToString(i)[1..] == NatToString(-i);
    } else {
      ParseNatToString(i);
    }
  }

  // ---------------------------------------------------------------------------
  // Entry lines
  // ---------------------------------------------------------------------------

  datatype Entry = Entry(key: string, count: int)

  /** `entry.getKey() + " : " + entry.getValue()` */
  function FormatEntry(key: string, count: int): (line: string) {
    key + Separator + IntToString(count)
  }

  /** The first position at or after `from` where the separator starts. */
  function FindSeparator(line: string, from: nat): (r: Option<nat>)
    ensures r.Some? ==> from <= r.value && SeparatorAt(line, r.value)
    decreases |line| - from
  {
    if from + 3 > |line| then None
    else if SeparatorAt(line, from) then Some(from)
    else FindSeparator(line, from + 1)
  }

  /** Splitting a line on " : ": the key before the first separator and the
      integer after it; None when the line has no separator or the rest is
      not an integer. */
  function ParseEntry(line: string): (r: Option<Entry>) {
    match FindSeparator(line, 0)
    case None => None
    case Some(p) =>
      match ParseInt(line[p + 3..])
      case None => None
      case Some(v) => Some(Entry(line[..p], v))
  }

  predicate HasNoSpace(s: string) {
    forall i :: 0 <= i < |s| ==> s[i] != ' '
  }

  /** A normalised key never holds a space. */
  lemma NormalHasNoSpace(w: string)
    requires IsNormal(w)
    ensures HasNoSpace(w)
  {
  }

  lemma {:induction false} FindSeparatorFirst(line: string, from: nat, p: nat)
    requires from <= p && SeparatorAt(line, p)
    requires forall q :: from <= q < p ==> line[q] != ' '
    ensures FindSeparator(line, from) == Some(p)
    decreases p - from
  {
    if from < p {
      FindSeparatorFirst(line, from + 1, p);
    }
  }

  /** A printed entry whose key has no space reads back as that entry. */
  lemma ParseFormatEntry(key: string, count: int)
    requires HasNoSpace(key)
    ensures ParseEntry(FormatEntry(key, count)) == Some(Entry(key, count))
  {
    var line := FormatEntry(key, count);
    var p := |key|;
    assert SeparatorAt(line, p);
    FindSeparatorFirst(line, 0, p);
    assert line[p + 3..] == IntToString(count);
    ParseIntToString(count);
    assert line[..p] == key;
  }

  /** The last position where the separator starts and ends by `end`. */
  function LastSeparator(line: string, end: nat): (r: Option<nat>)
    requires end <= |line|
    decreases end
  {
    if end < 3 then None
    else if SeparatorAt(line, end - 3) then Some(end - 3)
    else LastSeparator(line, end - 1)
  }

  lemma {:induction false} LastSeparatorAt(line: string, end: nat, p: nat)
    requires p + 3 <= end <= |line| && SeparatorAt(line, p)
    requires forall q :: p < q && q + 3 <= end ==> !SeparatorAt(line, q)
    ensures LastSeparator(line, end) == Some(p)
    decreases end
  {
    if end > p + 3 {
      LastSeparatorAt(line, end - 1, p);
    }
  }

  /** In a printed entry the last separator is the one after the key: the
      printed count has neither a space nor a colon. */
  lemma LastSeparatorOfEntry(key: string, count: int)
    ensures var line := FormatEntry(key, count);
      LastSeparator(line, |line|) == Some(|key|)
  {
    var line := FormatEntry(key, count);
    var digits := IntToString(count);
    var n := |key| + 3;
    assert SeparatorAt(line, |key|);
    forall q | |key| < q && q + 3 <= |line|
      ensures !SeparatorAt(line, q)
    {
      if q == |key| + 1 {
        assert line[q] == ':';
      } else if q == |key| + 2 {
        assert line[q + 1] == digits[0];
      } else {
        assert line[q] == digits[q - n];
      }
    }
    LastSeparatorAt(line, |line|, |key|);
  }

  /** Distinct entries print as distinct lines, whatever their keys hold. */
  lemma FormatEntryInjective(k1: string, c1: int, k2: string, c2: int)
    requires FormatEntry(k1, c1) == FormatEntry(k2, c2)
    ensures k1 == k2 && c1 == c2
  {
    var s := FormatEntry(k1, c1);
    LastSeparatorOfEntry(k1, c1);
    LastSeparatorOfEntry(k2, c2);
    assert k1 == s[..|k1|] && k2 == s[..|k2|];
    assert IntToString(c1) == s[|k1| + 3..] == IntToString(c2);
    ParseIntToString(c1);
    ParseIntToString(c2);
  }

  /** The lines printed for a table: one per entry. */
  function EntryLines(m: map<string, int>): (lines: set<string>) {
    set k | k in m :: FormatEntry(k, m[k])
  }

  /** Saving and re-reading: every printed line parses back to an entry of
      the table, and every entry is printed, when no key holds a space. */
  lemma EntryLinesRoundTrip(m: map<string, int>)
    requires forall k :: k in m ==> HasNoSpace(k)
    ensures forall l :: l in EntryLines(m) ==>
      ParseEntry(l).Some? && ParseEntry(l).value.key in m && m[ParseEntry(l).value.key] == ParseEntry(l).value.count
    ensures forall k :: k in m ==> ParseEntry(FormatEntry(k, m[k])) == Some(Entry(k, m[k]))
  {
    forall k | k in m ensures ParseEntry(FormatEntry(k, m[k])) == Some(Entry(k, m[k])) {
      ParseFormatEntry(k, m[k]);
    }
  }

  /** Printing a table: the lines in whatever order the table's keys are
      visited, one line per entry, no line twice. */
  method FormatTable(m: map<string, int>) returns (lines: seq<string>)
    ensures |lines| == |m|
    ensures forall l :: l in lines <==> l in EntryLines(m)
    ensures forall i, j :: 0 <= i < j < |lines| ==> lines[i] != lines[j]
  {
    var rest := m.Keys;
    ghost var visited: seq<string> := [];
    lines := [];
    while rest != {}
      invariant rest <= m.Keys
      invariant |visited| == |lines| && |lines| + |rest| == |m.Keys|
      invariant forall i :: 0 <= i < |visited| ==> visited[i] in m && visited[i] !in rest
      invariant forall k :: k in m ==> k in rest || k in visited
      invariant forall i, j :: 0 <= i < j < |visited| ==> visited[i] != visited[j]
      invariant forall i :: 0 <= i < |lines| ==> lines[i] == FormatEntry(visited[i], m[visited[i]])
      decreases |rest|
    {
      var k :| k in rest;
      lines := lines + [FormatEntry(k, m[k])];
      visited := visited + [k];
      rest := rest - {k};
    }
    DistinctLines(m, visited, lines);
  }

  lemma DistinctLines(m: map<string, int>, visited: seq<string>, lines: seq<string>)
    requires |visited| == |lines|
    requires forall i :: 0 <= i < |visited| ==> visited[i] in m
    requires forall k :: k in m ==> k in visited
    requires forall i, j :: 0 <= i < j < |visited| ==> visited[i] != visited[j]
    requires forall i :: 0 <= i < |lines| ==> lines[i] == FormatEntry(visited[i], m[visited[i]])
    ensures forall l :: l in lines <==> l in EntryLines(m)
    ensures forall i, j :: 0 <= i < j < |lines| ==> lines[i] != lines[j]
  {
    forall i, j | 0 <= i < j < |lines| ensures lines[i] != lines[j] {
      if lines[i] == lines[j] {
        FormatEntryInjective(visited[i], m[visited[i]], visited[j], m[visited[j]]);
      }
    }
    forall l | l in EntryLines(m) ensures l in lines {
      var k :| k in m && l == FormatEntry(k, m[k]);
      var i :| 0 <= i < |visited| && visited[i] == k;
      assert lines[i] == l;
    }
  }
}
