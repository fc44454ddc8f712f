/**
 Homework 7's word counter: each line of a downloaded text has its ASCII
 punctuation turned into blanks and its letters lowered (`changePunct`),
 then every whitespace-separated word is counted, and counted again as
 English when the dictionary holds it (`wordCount`). The dictionary is a
 parameter; loading it from "english.txt" is file I/O.
 */
module WordCount {
  import opened Text

  /** `ispunct` in the "C" locale: the printable ASCII characters that are neither letters, digits nor space. */
  predicate IsPunct(c: char) {
    '!' <= c <= '/' || ':' <= c <= '@' || '[' <= c <= '`' || '{' <= c <= '~'
  }

  predicate IsUpper(c: char) {
    'A' <= c <= 'Z'
  }

  /** `tolower` in the "C" locale. */
  function ToLower(c: char): (d: char)
    ensures !IsUpper(d)
    ensures IsUpper(c) ==> d as int == c as int + 32
    ensures !IsUpper(c) ==> d == c
  {
    if IsUpper(c) then (c as int - 'A' as int + 'a' as int) as char else c
  }

  /** `std::replace_if(begin, end, ::ispunct, ' ')`. */
  function ReplacePunct(s: string): (r: string)
    ensures |r| == |s|
    ensures forall i :: 0 <= i < |s| ==> r[i] == if IsPunct(s[i]) then ' ' else s[i]
    decreases |s|
  {
    if s == [] then [] else [if IsPunct(s[0]) then ' ' else s[0]] + ReplacePunct(s[1..])
  }

  /** `std::transform(begin, end, begin, ::tolower)`. */
  function LowerAll(s: string): (r: string)
    ensures |r| == |s|
    ensures forall i :: 0 <= i < |s| ==> r[i] == ToLower(s[i])
    decreases |s|
  {
    if s == [] then [] else [ToLower(s[0])] + LowerAll(s[1..])
  }

  /** No punctuation and no upper-case letter. */
  predicate Normalized(s: string) {
    forall i :: 0 <= i < |s| ==> !IsPunct(s[i]) && !IsUpper(s[i])
  }

  /** `changePunct(line)`: punctuation to blanks, then everything lowered. */
  function ChangePunct(line: string): (r: string)
    ensures |r| == |line|
    ensures Normalized(r)
    ensures forall i :: 0 <= i < |line| && IsPunct(line[i]) ==> r[i] == ' '
    ensures forall i :: 0 <= i < |line| && IsUpper(line[i]) ==> r[i] as int == line[i] as int + 32
    ensures forall i :: 0 <= i < |line| && !IsPunct(line[i]) && !IsUpper(line[i]) ==> r[i] == line[i]
  {
    LowerAll(ReplacePunct(line))
  }

  /** A normalized line is left as it is. */
  lemma {:induction false} NormalizedUnchanged(s: string)
    requires Normalized(s)
    ensures ChangePunct(s) == s
  {
    var r := ChangePunct(s);
    forall i | 0 <= i < |s| ensures r[i] == s[i] {
      assert !IsPunct(s[i]) && !IsUpper(s[i]);
    }
  }

  /** Applying `changePunct` twice is the same as once. */
  lemma {:induction false} ChangePunctIdempotent(line: string)
    ensures ChangePunct(ChangePunct(line)) == ChangePunct(line)
  {
    NormalizedUnchanged(ChangePunct(line));
  }

  // ---------------------------------------------------------------------
  // Counting.
  // ---------------------------------------------------------------------

  /** The words `is >> word` reads from one line after `changePunct`. */
  function LineWords(line: string): seq<string> {
    Tokens(ChangePunct(line))
  }

  /** The words of all lines, in order. */
  function AllWords(lines: seq<string>): (ws: seq<string>)
    ensures forall k :: 0 <= k < |ws| ==> IsWord(ws[k]) && Normalized(ws[k])
    decreases |lines|
  {
    if lines == [] then []
    else
      var last := lines[|lines| - 1];
      var ws := LineWords(last);
      assert forall k :: 0 <= k < |ws| ==> Normalized(ws[k]) by {
        TokensNormalized(ChangePunct(last));
      }
      AllWords(lines[..|lines| - 1]) + ws
  }

  /** How many of the words the dictionary holds, duplicates counted each time. */
  function CountKnown(ws: seq<string>, dict: set<string>): (n: nat)
    ensures n <= |ws|
    ensures (forall k :: 0 <= k < |ws| ==> ws[k] in dict) ==> n == |ws|
    ensures (forall k :: 0 <= k < |ws| ==> ws[k] !in dict) ==> n == 0
    decreases |ws|
  {
    if ws == [] then 0 else CountKnown(ws[..|ws| - 1], dict) + (if ws[|ws| - 1] in dict then 1 else 0)
  }

  lemma {:induction false} WordNormalized(s: string)
    requires Normalized(s)
    ensures Normalized(Word(s))
    decreases |s|
  {
    if s != [] && !IsSpace(s[0]) {
      WordNormalized(s[1..]);
    }
  }

  lemma {:induction false} TokensNormalized(s: string)
    requires Normalized(s)
    ensures forall k :: 0 <= k < |Tokens(s)| ==> Normalized(Tokens(s)[k])
    decreases |s|
  {
    if s != [] {
      if IsSpace(s[0]) {
        TokensNormalized(s[1..]);
      } else {
        var w := Word(s);
        WordNormalized(s);
        TokensNormalized(s[|w|..]);
      }
    }
  }

  lemma {:induction false} CountKnownSnoc(ws: seq<string>, w: string, dict: set<string>)
    ensures CountKnown(ws + [w], dict) == CountKnown(ws, dict) + (if w in dict then 1 else 0)
  {
    assert (ws + [w])[..|ws|] == ws;
  }

  /** Counting over two stretches of words adds up. */
  lemma {:induction false} CountKnownConcat(a: seq<string>, b: seq<string>, dict: set<string>)
    ensures CountKnown(a + b, dict) == CountKnown(a, dict) + CountKnown(b, dict)
    decreases |b|
  {
    if b == [] {
      assert a + b == a;
    } else {
      var init := b[..|b| - 1];
      var w := b[|b| - 1];
      assert a + b == (a + init) + [w];
      assert b == init + [w];
      CountKnownConcat(a, init, dict);
      CountKnownSnoc(a + init, w, dict);
      CountKnownSnoc(init, w, dict);
    }
  }

  lemma {:induction false} AllWordsSnoc(lines: seq<string>, i: nat)
    requires i < |lines|
    ensures AllWords(lines[..i + 1]) == AllWords(lines[..i]) + LineWords(lines[i])
  {
    assert lines[..i + 1][..i] == lines[..i];
  }

  /** The words of one line, with how many of them the dictionary holds: the inner loop of `wordCount`. */
  method CountLine(line: string, dict: set<string>) returns (words: nat, english: nat)
    ensures words == |LineWords(line)|
    ensures english == CountKnown(LineWords(line), dict)
  {
    words, english := CountEach(LineWords(line), dict);
  }

  /** Counting the words one by one, and the ones the dictionary holds. */
  method CountEach(ws: seq<string>, dict: set<string>) returns (words: nat, english: nat)
    ensures words == |ws|
    ensures english == CountKnown(ws, dict)
  {
    words, english := 0, 0;
    var j := 0;
    while j < |ws|
      invariant 0 <= j <= |ws|
      invariant words == j
      invariant english == CountKnown(ws[..j], dict)
    {
      assert ws[..j + 1] == ws[..j] + [ws[j]];
      CountKnownSnoc(ws[..j], ws[j], dict);
      words := words + 1;
      if ws[j] in dict {
        english := english + 1;
      }
      j := j + 1;
    }
    assert ws[..|ws|] == ws;
  }

  /** `wordCount(stream)` on the lines of the stream: the total and the English word counts. */
  method CountWords(lines: seq<string>, dict: set<string>) returns (words: nat, english: nat)
    ensures words == |AllWords(lines)|
    ensures english == CountKnown(AllWords(lines), dict)
    ensures english <= words
  {
    words, english := 0, 0;
    var i := 0;
    while i < |lines|
      invariant 0 <= i <= |lines|
      invariant words == |AllWords(lines[..i])|
      invariant english == CountKnown(AllWords(lines[..i]), dict)
    {
      var w, e := CountLine(lines[i], dict);
      AllWordsSnoc(lines, i);
      CountKnownConcat(AllWords(lines[..i]), LineWords(lines[i]), dict);
      words, english := words + w, english + e;
      i := i + 1;
    }
    assert lines[..|lines|] == lines;
  }

  // ---------------------------------------------------------------------
  // The report.
  // ---------------------------------------------------------------------

  const WordsLabel := ": words="
  const EnglishLabel := ", English words="

  /** The string `wordCount` returns. */
  function Report(words: nat, english: nat): (s: string)
    ensures WordsLabel <= s
  {
    WordsLabel + (NatToString(words) + (EnglishLabel + NatToString(english)))
  }

  /** `getCount(file)`: the file name followed by the report on its body. */
  method GetCount(file: string, body: seq<string>, dict: set<string>) returns (s: string)
    ensures s == file + Report(|AllWords(body)|, CountKnown(AllWords(body), dict))
  {
    var words, english := CountWords(body, dict);
    s := file + Report(words, english);
  }

  /** Reading the two counts back out of a report. */
  function ParseReport(s: string): (r: Option<(nat, nat)>)
  {
    if !(WordsLabel <= s) then None
    else
      var rest := s[|WordsLabel|..];
      var d1 := DigitRun(rest);
      var tail := rest[|d1|..];
      if d1 == [] || !(EnglishLabel <= tail) then None
      else
        var d2 := tail[|EnglishLabel|..];
        if d2 == [] || !AllDigits(d2) then None
        else Some((ParseDecimal(d1), ParseDecimal(d2)))
  }

  /** Every report reads back as the two counts it was made from. */
  lemma {:induction false} ReportRoundTrip(words: nat, english: nat)
    ensures ParseReport(Report(words, english)) == Some((words, english))
  {
    var n1 := NatToString(words);
    var n2 := NatToString(english);
    var tail := EnglishLabel + n2;
    var s := Report(words, english);
    assert s[|WordsLabel|..] == n1 + tail;
    assert !IsDigit(tail[0]);
    DigitRunAll(n1, tail);
    assert (n1 + tail)[|n1|..] == tail;
    assert tail[|EnglishLabel|..] == n2;
    ParseNatToString(words);
    ParseNatToString(english);
  }

  /** Two different count pairs never give the same report. */
  lemma {:induction false} ReportInjective(w1: nat, e1: nat, w2: nat, e2: nat)
    requires Report(w1, e1) == Report(w2, e2)
    ensures w1 == w2 && e1 == e2
  {
    ReportRoundTrip(w1, e1);
    ReportRoundTrip(w2, e2);
  }

  // ---------------------------------------------------------------------
  // Punctuation splits words.
  // ---------------------------------------------------------------------

  /** A punctuation mark between two words becomes a blank, so the two are counted apart. */
  lemma {:induction false} PunctuationSplits(a: string, p: char, b: string)
    requires IsWord(a) && IsWord(b) && Normalized(a) && Normalized(b)
    requires IsPunct(p)
    ensures LineWords(a + [p] + b) == [a, b]
  {
    var line := a + [p] + b;
    var r := ChangePunct(line);
    var t := a + (" " + b);
    forall i | 0 <= i < |line| ensures r[i] == t[i] {
      if i < |a| {
        assert line[i] == a[i] && t[i] == a[i];
        assert !IsPunct(a[i]) && !IsUpper(a[i]);
      } else if i == |a| {
        assert line[i] == p && t[i] == ' ';
      } else {
        var j := i - |a| - 1;
        assert line[i] == b[j] && t[i] == b[j];
        assert !IsPunct(b[j]) && !IsUpper(b[j]);
      }
    }
    assert r == t;
    assert JoinSpace([a, b]) == a + (" " + b) by {
      assert [a, b][1..] == [b];
    }
    TokensOfJoin([a, b]);
  }

  /** "don't" is two words, "don" and "t". */
  lemma {:induction false} DontIsTwoWords()
    ensures LineWords("don" + "'" + "t") == ["don", "t"]
  {
    assert IsWord("don") && IsWord("t");
    assert Normalized("don") && Normalized("t");
    PunctuationSplits("don", '\'', "t");
  }
}
