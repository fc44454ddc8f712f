/**
 Character classes, whitespace tokenising and decimal numerals shared by the
 models of the homework programs. Strings are `seq<char>` holding one byte per
 character, as `std::string` does.
 */
module Text {

  /** Outcome of a C++ operation that may throw; `reason` names the exception. */
  datatype Result<+T> = Ok(value: T) | Err(reason: string) {
    predicate IsFailure() {
      Err?
    }

    function PropagateFailure<U>(): Result<U>
      requires Err?
    {
      Err(reason)
    }

    function Extract(): T
      requires Ok?
    {
      value
    }
  }

  datatype Option<+T> = None | Some(value: T)

  /** `isspace` in the "C" locale: space, tab, newline, vertical tab, form feed, carriage return. */
  predicate IsSpace(c: char) {
    c == ' ' || '\t' <= c <= '\r'
  }

  predicate IsDigit(c: char) {
    '0' <= c <= '9'
  }

  predicate NoSpace(s: string) {
    forall i :: 0 <= i < |s| ==> !IsSpace(s[i])
  }

  predicate AllDigits(s: string) {
    forall i :: 0 <= i < |s| ==> IsDigit(s[i])
  }

  /** True when every character fits in one byte. */
  predicate IsBytes(s: string) {
    forall i :: 0 <= i < |s| ==> s[i] as int < 256
  }

  function DigitValue(c: char): (d: nat)
    requires IsDigit(c)
    ensures d < 10
  {
    c as int - '0' as int
  }

  function DigitChar(d: nat): (c: char)
    requires d < 10
    ensures IsDigit(c) && DigitValue(c) == d
  {
    ('0' as int + d) as char
  }

  // ---------------------------------------------------------------------
  // Decimal numerals: std::to_string on an unsigned value, and its reader.
  // ---------------------------------------------------------------------

  /** Decimal rendering of `n` without leading zeros, as `std::to_string` and `operator<<` print it. */
  function NatToString(n: nat): (s: string)
    ensures 1 <= |s|
    ensures AllDigits(s)
    ensures s[0] == '0' ==> s == "0"
    decreases n
  {
    if n < 10 then [DigitChar(n)] else NatToString(n / 10) + [DigitChar(n % 10)]
  }

  /** Value of a string of decimal digits (leading zeros allowed, empty is 0). */
  function ParseDecimal(s: string): nat
    requires AllDigits(s)
    decreases |s|
  {
    if s == [] then 0 else 10 * ParseDecimal(s[..|s| - 1]) + DigitValue(s[|s| - 1])
  }

  /** Reading back what `NatToString` printed gives the number. */
  lemma {:induction false} ParseNatToString(n: nat)
    ensures ParseDecimal(NatToString(n)) == n
    decreases n
  {
    var s := NatToString(n);
    if n >= 10 {
      ParseNatToString(n / 10);
      assert s[..|s| - 1] == NatToString(n / 10);
    }
  }

  lemma {:induction false} ParseDecimalPositive(s: string)
    requires AllDigits(s) && |s| > 0 && s[0] != '0'
    ensures ParseDecimal(s) > 0
    decreases |s|
  {
    if |s| > 1 {
      ParseDecimalPositive(s[..|s| - 1]);
    }
  }

  /** A numeral without leading zeros is exactly what `NatToString` prints for its value. */
  lemma {:induction false} NatToStringParse(s: string)
    requires AllDigits(s) && |s| > 0 && (s[0] == '0' ==> s == "0")
    ensures NatToString(ParseDecimal(s)) == s
    decreases |s|
  {
    var a := s[..|s| - 1];
    if |a| > 0 {
      NatToStringParse(a);
      ParseDecimalPositive(a);
      var n := ParseDecimal(s);
      assert n / 10 == ParseDecimal(a) && n % 10 == DigitValue(s[|s| - 1]);
      assert s == a + [s[|s| - 1]];
    }
  }

  /** The longest run of decimal digits at the front of `s`. */
  function DigitRun(s: string): (d: string)
    ensures d <= s && AllDigits(d)
    ensures |d| < |s| ==> !IsDigit(s[|d|])
    decreases |s|
  {
    if s == [] || !IsDigit(s[0]) then [] else [s[0]] + DigitRun(s[1..])
  }

  lemma {:induction false} DigitRunAll(d: string, t: string)
    requires AllDigits(d)
    requires t == [] || !IsDigit(t[0])
    ensures DigitRun(d + t) == d
    decreases |d|
  {
    if d == [] {
      assert d + t == t;
    } else {
      assert (d + t)[1..] == d[1..] + t;
      DigitRunAll(d[1..], t);
      assert d == [d[0]] + d[1..];
    }
  }

  /** A string of digits is its own digit run. */
  lemma {:induction false} DigitRunWhole(d: string)
    requires AllDigits(d)
    ensures DigitRun(d) == d
  {
    DigitRunAll(d, []);
    assert d + [] == d;
  }

  // ---------------------------------------------------------------------
  // Whitespace tokens: what repeated `is >> word` extracts from a stream.
  // ---------------------------------------------------------------------

  /** The longest prefix of `s` free of whitespace. */
  function Word(s: string): (w: string)
    ensures w <= s
    ensures NoSpace(w)
    ensures |w| < |s| ==> IsSpace(s[|w|])
    decreases |s|
  {
    if s == [] || IsSpace(s[0]) then [] else [s[0]] + Word(s[1..])
  }

  /** The words `operator>>` reads one after another until the stream is exhausted. */
  function Tokens(s: string): (ws: seq<string>)
    ensures forall k :: 0 <= k < |ws| ==> ws[k] != [] && NoSpace(ws[k])
    decreases |s|
  {
    if s == [] then []
    else if IsSpace(s[0]) then Tokens(s[1..])
    else
      var w := Word(s);
      [w] + Tokens(s[|w|..])
  }

  /** One `is >> word`: the next word and the stream after it; None when only whitespace is left. */
  function ReadWord(s: string): (r: Option<(string, string)>)
    ensures r.None? <==> Tokens(s) == []
    ensures r.Some? ==> IsWord(r.value.0) && Tokens(s) == [r.value.0] + Tokens(r.value.1)
    decreases |s|
  {
    if s == [] then None
    else if IsSpace(s[0]) then ReadWord(s[1..])
    else
      var w := Word(s);
      Some((w, s[|w|..]))
  }

  /** The `k`-th token (from 0), or the empty string a failed extraction leaves behind. */
  function Nth(ws: seq<string>, k: nat): string {
    if k < |ws| then ws[k] else ""
  }

  /** Words separated by single spaces. */
  function JoinSpace(ws: seq<string>): string
    decreases |ws|
  {
    if ws == [] then [] else if |ws| == 1 then ws[0] else ws[0] + (" " + JoinSpace(ws[1..]))
  }

  predicate IsWord(w: string) {
    w != [] && NoSpace(w)
  }

  lemma {:induction false} WordOfPrefix(w: string, t: string)
    requires NoSpace(w)
    requires t == [] || IsSpace(t[0])
    ensures Word(w + t) == w
    decreases |w|
  {
    if w == [] {
      assert w + t == t;
    } else {
      assert (w + t)[0] == w[0];
      assert (w + t)[1..] == w[1..] + t;
      WordOfPrefix(w[1..], t);
      assert w == [w[0]] + w[1..];
    }
  }

  /** Splitting words joined by spaces gives the words back. */
  lemma {:induction false} TokensOfJoin(ws: seq<string>)
    requires forall k :: 0 <= k < |ws| ==> IsWord(ws[k])
    ensures Tokens(JoinSpace(ws)) == ws
    decreases |ws|
  {
    if ws == [] {
    } else if |ws| == 1 {
      var w := ws[0];
      WordOfPrefix(w, []);
      assert w + [] == w;
      assert w[|w|..] == [];
    } else {
      TokensCons(ws[0], JoinSpace(ws[1..]));
      TokensOfJoin(ws[1..]);
      assert [ws[0]] + ws[1..] == ws;
    }
  }

  /** A word followed by a blank is the first token; the rest is tokenized on its own. */
  lemma {:induction false} TokensCons(w: string, rest: string)
    requires IsWord(w)
    ensures Tokens(w + (" " + rest)) == [w] + Tokens(rest)
  {
    var s := w + (" " + rest);
    assert s[0] == w[0];
    WordOfPrefix(w, " " + rest);
    assert s[|w|..] == " " + rest;
    assert (" " + rest)[1..] == rest;
  }

  /** A single word is its own only token. */
  lemma {:induction false} TokensOfWord(w: string)
    requires IsWord(w)
    ensures Tokens(w) == [w]
  {
    TokensOfJoin([w]);
  }

  /** std::string::find(c, from): the first position at or after `from` holding `c`. */
  function FindChar(s: string, c: char, from: nat): (r: Option<nat>)
    ensures r.Some? ==> from <= r.value < |s| && s[r.value] == c
    decreases |s| - from
  {
    if from >= |s| then None else if s[from] == c then Some(from) else FindChar(s, c, from + 1)
  }

  /** `find` returns the first occurrence: no `c` lies between `from` and the result. */
  lemma {:induction false} FindCharFirst(s: string, c: char, from: nat)
    ensures var r := FindChar(s, c, from);
      && (r.Some? ==> forall i :: from <= i < r.value ==> s[i] != c)
      && (r.None? ==> forall i :: from <= i < |s| ==> s[i] != c)
    decreases |s| - from
  {
    if from < |s| && s[from] != c {
      FindCharFirst(s, c, from + 1);
    }
  }

  /** The first occurrence of `c` from `from` is the one right after a `c`-free stretch. */
  lemma {:induction false} FindCharAt(s: string, c: char, from: nat, at: nat)
    requires from <= at < |s| && s[at] == c
    requires forall i :: from <= i < at ==> s[i] != c
    ensures FindChar(s, c, from) == Some(at)
    decreases at - from
  {
    if from < at {
      FindCharAt(s, c, from + 1, at);
    }
  }

  /** With no `c` from `from` on, `find` reports npos. */
  lemma {:induction false} FindCharAbsent(s: string, c: char, from: nat)
    requires forall i :: from <= i < |s| ==> s[i] != c
    ensures FindChar(s, c, from).None?
    decreases |s| - from
  {
    if from < |s| {
      FindCharAbsent(s, c, from + 1);
    }
  }

  /** Searching the part after a prefix finds the first `c` of that part, shifted by the prefix. */
  lemma {:induction false} FindCharOffset(pre: string, body: string, c: char, j: nat)
    requires j < |body| && body[j] == c && c !in body[..j]
    ensures FindChar(pre + body, c, |pre|) == Some(|pre| + j)
  {
    var s := pre + body;
    forall i | |pre| <= i < |pre| + j ensures s[i] != c {
      assert s[i] == body[..j][i - |pre|];
    }
    FindCharAt(s, c, |pre|, |pre| + j);
  }

  /** The first `c` after a prefix is the one that ends the `c`-free stretch `a`. */
  lemma {:induction false} FindCharAfter(pre: string, a: string, rest: string, c: char)
    requires c !in a && rest != [] && rest[0] == c
    ensures FindChar(pre + (a + rest), c, |pre|) == Some(|pre| + |a|)
  {
    var s := pre + (a + rest);
    forall i | |pre| <= i < |pre| + |a| ensures s[i] != c {
      assert s[i] == a[i - |pre|];
    }
    assert s[|pre| + |a|] == rest[0];
    FindCharAt(s, c, |pre|, |pre| + |a|);
  }

  /** The first `c` after `pre` in `pre x sep y z`, with no `c` in `x`, `sep` or `y`, is the first of `z`. */
  lemma {:induction false} FindCharPastSep(pre: string, x: string, sep: string, y: string, z: string, c: char)
    requires c !in x && c !in sep && c !in y && z != [] && z[0] == c
    ensures FindChar(pre + (x + (sep + (y + z))), c, |pre|) == Some(|pre| + |x + (sep + y)|)
  {
    AppendAssoc3(x, sep, y, z);
    FindCharAfter(pre, x + (sep + y), z, c);
  }

  lemma {:induction false} AppendAssoc3<T>(w: seq<T>, x: seq<T>, y: seq<T>, z: seq<T>)
    ensures w + (x + (y + z)) == (w + (x + y)) + z
  {
    AppendAssoc(w, x + y, z);
    AppendAssoc(x, y, z);
  }

  lemma {:induction false} AppendAssoc<T>(x: seq<T>, y: seq<T>, z: seq<T>)
    ensures (x + y) + z == x + (y + z)
  {
  }

  /** Searching the part after a prefix that holds no `c` finds nothing. */
  lemma {:induction false} FindCharNone(pre: string, body: string, c: char)
    requires c !in body
    ensures FindChar(pre + body, c, |pre|).None?
  {
    var s := pre + body;
    forall i | |pre| <= i < |s| ensures s[i] != c {
      assert s[i] == body[i - |pre|];
    }
    FindCharAbsent(s, c, |pre|);
  }

  /** Slicing past a prefix is slicing the part after it. */
  lemma {:induction false} SliceOffset(pre: string, body: string, i: nat, j: nat)
    requires i <= j <= |body|
    ensures (pre + body)[|pre| + i..|pre| + j] == body[i..j]
    ensures (pre + body)[|pre| + i..] == body[i..]
  {
  }

}
