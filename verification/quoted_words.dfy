/**
 `split` of homework 5: the words `is >> std::quoted(word)` reads one after
 another from a line. As libstdc++ implements the extractor, after skipping
 whitespace a word that starts with '"' is read up to the next unescaped '"'
 (a backslash takes the next character literally), and any other word is an
 ordinary `>> std::string` word, quotes and all. A quoted word the line ends
 inside is not stored, and the extraction fails, which ends the loop.
 */
module QuotedWords {
  import opened Text

  /** What is left after `operator>>` skips leading whitespace. */
  function SkipSpace(s: string): (t: string)
    ensures |t| <= |s| && t == s[|s| - |t|..]
    ensures t != [] ==> !IsSpace(t[0])
    ensures forall i :: 0 <= i < |s| - |t| ==> IsSpace(s[i])
    decreases |s|
  {
    if s != [] && IsSpace(s[0]) then SkipSpace(s[1..]) else s
  }

  /**
   The inside of a quoted word: the characters up to the closing '"', with
   each backslash dropped and the character after it kept, and what follows
   the closing quote. None when the input ends first.
   */
  function ReadQuoted(s: string): (r: Option<(string, string)>)
    ensures r.Some? ==> |r.value.1| < |s|
    decreases |s|
  {
    if s == [] then None
    else if s[0] == '"' then Some(([], s[1..]))
    else if s[0] == '\\' then
      if |s| == 1 then None
      else match ReadQuoted(s[2..])
        case None => None
        case Some((w, rest)) => Some(([s[1]] + w, rest))
    else
      match ReadQuoted(s[1..])
      case None => None
      case Some((w, rest)) => Some(([s[0]] + w, rest))
  }

  /** `split(line)`: the words read until extraction fails. */
  function Split(s: string): (ws: seq<string>)
    ensures |ws| <= |s|
    ensures (forall i :: 0 <= i < |s| ==> IsSpace(s[i])) ==> ws == []
    decreases |s|, 1
  {
    SplitAt(SkipSpace(s))
  }

  /** The words read from a line whose leading whitespace is already skipped. */
  function SplitAt(t: string): (ws: seq<string>)
    requires t == [] || !IsSpace(t[0])
    ensures |ws| <= |t|
    decreases |t|, 0
  {
    if t == [] then []
    else if t[0] == '"' then
      match ReadQuoted(t[1..])
      case None => []
      case Some((w, rest)) => [w] + Split(rest)
    else
      var w := Word(t);
      [w] + Split(t[|w|..])
  }

  // ---------------------------------------------------------------------
  // Lines without quotes split like plain `>>` words.
  // ---------------------------------------------------------------------

  lemma {:induction false} TokensSkipSpace(s: string)
    ensures Tokens(s) == Tokens(SkipSpace(s))
    decreases |s|
  {
    if s != [] && IsSpace(s[0]) {
      TokensSkipSpace(s[1..]);
    }
  }

  /** A line without a '"' splits into exactly its whitespace-separated words. */
  lemma {:induction false} SplitWithoutQuotes(s: string)
    requires '"' !in s
    ensures Split(s) == Tokens(s)
    decreases |s|
  {
    var t := SkipSpace(s);
    TokensSkipSpace(s);
    if t != [] {
      assert t[0] in s;
      var w := Word(t);
      assert forall c :: c in t[|w|..] ==> c in s;
      SplitWithoutQuotes(t[|w|..]);
    }
  }

  /** A blank or whitespace-only line gives no words at all. */
  lemma {:induction false} BlankLine(s: string)
    requires forall i :: 0 <= i < |s| ==> IsSpace(s[i])
    ensures Split(s) == []
  {
    assert SkipSpace(s) == [];
  }

  // ---------------------------------------------------------------------
  // The partner: what `os << std::quoted(word)` writes.
  // ---------------------------------------------------------------------

  /** Each '"' and '\\' preceded by a backslash. */
  function Escape(w: string): (e: string)
    ensures |e| >= |w|
    decreases |w|
  {
    if w == [] then []
    else if w[0] == '"' || w[0] == '\\' then ['\\', w[0]] + Escape(w[1..])
    else [w[0]] + Escape(w[1..])
  }

  /** `std::quoted(w)` inserted into a stream. */
  function Quote(w: string): string {
    "\"" + Escape(w) + "\""
  }

  /** Quoted words separated by single spaces. */
  function JoinQuoted(ws: seq<string>): string
    decreases |ws|
  {
    if ws == [] then [] else if |ws| == 1 then Quote(ws[0]) else Quote(ws[0]) + (" " + JoinQuoted(ws[1..]))
  }

  /** Reading a quoted word back stops exactly at its closing quote. */
  lemma {:induction false} ReadEscaped(w: string, rest: string)
    ensures ReadQuoted(Escape(w) + ("\"" + rest)) == Some((w, rest))
    decreases |w|
  {
    if w == [] {
      assert Escape(w) + ("\"" + rest) == "\"" + rest;
    } else {
      var e := Escape(w[1..]);
      ReadEscaped(w[1..], rest);
      if w[0] == '"' || w[0] == '\\' {
        assert Escape(w) == ['\\', w[0]] + e;
        ReadBackslash(w[0], e, "\"" + rest, w[1..], rest);
      } else {
        assert Escape(w) == [w[0]] + e;
        ReadPlain(w[0], e, "\"" + rest, w[1..], rest);
      }
      assert [w[0]] + w[1..] == w;
    }
  }

  /** A backslash keeps the character after it, whatever it is. */
  lemma {:induction false} ReadBackslash(c: char, e: string, x: string, w: string, rest: string)
    requires ReadQuoted(e + x) == Some((w, rest))
    ensures ReadQuoted((['\\', c] + e) + x) == Some(([c] + w, rest))
  {
    assert ((['\\', c] + e) + x)[2..] == e + x;
  }

  /** Any other character but the closing quote is kept as it is. */
  lemma {:induction false} ReadPlain(c: char, e: string, x: string, w: string, rest: string)
    requires c != '"' && c != '\\'
    requires ReadQuoted(e + x) == Some((w, rest))
    ensures ReadQuoted(([c] + e) + x) == Some(([c] + w, rest))
  {
    assert (([c] + e) + x)[1..] == e + x;
  }

  /** A line that starts with a quoted word splits into that word and the split of what follows. */
  lemma {:induction false} SplitQuotedHead(w: string, rest: string)
    ensures Split(Quote(w) + rest) == [w] + Split(rest)
  {
    var s := Quote(w) + rest;
    assert s[0] == '"';
    assert SkipSpace(s) == s;
    assert s[1..] == Escape(w) + ("\"" + rest);
    ReadEscaped(w, rest);
  }

  /** A line of one quoted word splits into that word. */
  lemma {:induction false} SplitQuotedOnly(w: string)
    ensures Split(Quote(w)) == [w]
  {
    SplitQuotedHead(w, []);
    assert Quote(w) + [] == Quote(w);
    assert SkipSpace([]) == [];
  }

  /** A space in front does not change the split. */
  lemma {:induction false} SplitAfterSpace(s: string)
    ensures Split(" " + s) == Split(s)
  {
    assert (" " + s)[1..] == s;
    assert SkipSpace(" " + s) == SkipSpace(s);
    SplitSkip(" " + s);
    SplitSkip(s);
  }

  /**
   Words written with `std::quoted` and separated by spaces split back into
   the same words, even empty ones or ones holding spaces, quotes or
   backslashes.
   */
  lemma {:induction false} SplitQuoted(ws: seq<string>)
    ensures Split(JoinQuoted(ws)) == ws
    decreases |ws|
  {
    if ws == [] {
    } else if |ws| == 1 {
      SplitQuotedHead(ws[0], []);
      assert Quote(ws[0]) + [] == Quote(ws[0]);
    } else {
      var more := JoinQuoted(ws[1..]);
      assert JoinQuoted(ws) == Quote(ws[0]) + (" " + more);
      SplitQuoted(ws[1..]);
      SplitQuotedStep(ws[0], more, ws[1..]);
      assert [ws[0]] + ws[1..] == ws;
    }
  }

  /** A quoted word and a space in front of a line that splits into `rest`. */
  lemma {:induction false} SplitQuotedStep(w: string, more: string, rest: seq<string>)
    requires Split(more) == rest
    ensures Split(Quote(w) + (" " + more)) == [w] + rest
  {
    SplitQuotedHead(w, " " + more);
    SplitAfterSpace(more);
  }

  /** Leading whitespace does not change the split. */
  lemma {:induction false} SplitSkip(s: string)
    ensures Split(s) == Split(SkipSpace(s))
  {
    SkipSpaceIdempotent(s);
  }

  lemma {:induction false} SkipSpaceIdempotent(s: string)
    ensures SkipSpace(SkipSpace(s)) == SkipSpace(s)
    decreases |s|
  {
    if s != [] && IsSpace(s[0]) {
      SkipSpaceIdempotent(s[1..]);
    }
  }

  /** A plain word first on the line is read whole, up to the whitespace after it. */
  lemma {:induction false} SplitWordHead(w: string, rest: string)
    requires IsWord(w) && w[0] != '"'
    requires rest == [] || IsSpace(rest[0])
    ensures Split(w + rest) == [w] + Split(rest)
  {
    var s := w + rest;
    assert s[0] == w[0];
    assert SkipSpace(s) == s;
    WordOfPrefix(w, rest);
    assert s[|w|..] == rest;
  }

  /** A plain word and a space in front of the rest of the line. */
  lemma {:induction false} SplitWordThenSpace(w: string, more: string)
    requires IsWord(w) && w[0] != '"'
    ensures Split(w + (" " + more)) == [w] + Split(more)
  {
    SplitWordHead(w, " " + more);
    SplitAfterSpace(more);
  }

  lemma {:induction false} JoinSpaceSnoc(ws: seq<string>, x: string)
    requires ws != []
    ensures JoinSpace(ws + [x]) == ws[0] + (" " + JoinSpace(ws[1..] + [x]))
  {
    assert (ws + [x])[1..] == ws[1..] + [x];
  }

  lemma {:induction false} SplitUnclosed(tail: string)
    requires '"' !in tail && '\\' !in tail
    ensures Split("\"" + tail) == []
  {
    var s := "\"" + tail;
    assert SkipSpace(s) == s;
    assert s[1..] == tail;
    UnclosedRead(tail);
  }

  /** A quote the line never closes loses the word it starts and everything after it. */
  lemma {:induction false} UnterminatedQuote(ws: seq<string>, tail: string)
    requires forall k :: 0 <= k < |ws| ==> IsWord(ws[k]) && '"' !in ws[k]
    requires '"' !in tail && '\\' !in tail
    ensures Split(JoinSpace(ws + ["\"" + tail])) == ws
    decreases |ws|
  {
    if ws == [] {
      assert ws + ["\"" + tail] == ["\"" + tail];
      SplitUnclosed(tail);
    } else {
      var w := ws[0];
      var more := JoinSpace(ws[1..] + ["\"" + tail]);
      JoinSpaceSnoc(ws, "\"" + tail);
      assert w[0] in w;
      SplitWordThenSpace(w, more);
      UnterminatedQuote(ws[1..], tail);
      assert [w] + ws[1..] == ws;
    }
  }

  lemma {:induction false} UnclosedRead(tail: string)
    requires '"' !in tail && '\\' !in tail
    ensures ReadQuoted(tail) == None
    decreases |tail|
  {
    if tail != [] {
      assert tail[0] in tail;
      assert forall c :: c in tail[1..] ==> c in tail;
      UnclosedRead(tail[1..]);
    }
  }

  lemma {:induction false} QuoteOfQuote()
    ensures Quote("\"") == "\"\\\"\""
  {
    assert Escape("\"") == "\\\"";
  }

  /** A backslash-escaped quote inside quotes is a quote character: the line `"\""` is the one word `"`. */
  lemma {:induction false} EscapedQuote()
    ensures Split("\"\\\"\"") == ["\""]
  {
    SplitQuoted(["\""]);
    QuoteOfQuote();
  }
}
