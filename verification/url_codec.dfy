/**
 `url_decode`, the helper every stock server and the cgi server share: `+`
 becomes a space (the form encoding of section 17.13.4.1 of HTML 4.01) and
 `%hh` becomes the byte with hexadecimal value hh (percent-encoding, section
 2.1 of RFC 3986). The C++ code converts the (at most two) characters after a
 `%` with `std::stoi(hex, nullptr, 16)`; that conversion is modelled exactly,
 including the inputs on which it throws `std::invalid_argument`.
 */
module UrlCodec {
  import opened Text

  predicate IsHex(c: char) {
    '0' <= c <= '9' || 'a' <= c <= 'f' || 'A' <= c <= 'F'
  }

  function HexValue(c: char): (v: nat)
    requires IsHex(c)
    ensures v < 16
  {
    if '0' <= c <= '9' then c as int - '0' as int
    else if 'a' <= c <= 'f' then c as int - 'a' as int + 10
    else c as int - 'A' as int + 10
  }

  function HexDigit(v: nat): (c: char)
    requires v < 16
    ensures IsHex(c) && HexValue(c) == v
  {
    if v < 10 then ('0' as int + v) as char else ('A' as int + v - 10) as char
  }

  function Min(a: int, b: int): int {
    if a < b then a else b
  }

  /**
   `std::stoi(h, nullptr, 16)` on a string of at most two characters: strtol
   skips one leading blank, accepts one sign, and reads the longest run of hex
   digits ("0x" reads as 0). None stands for the `std::invalid_argument` it
   throws when no digit can be read.
   */
  function Stoi16(h: string): (r: Option<int>)
    requires |h| <= 2
    ensures r.Some? ==> -15 <= r.value < 256
  {
    if |h| == 0 then None
    else if IsHex(h[0]) then
      (if |h| == 2 && IsHex(h[1]) then Some(16 * HexValue(h[0]) + HexValue(h[1])) else Some(HexValue(h[0])))
    else if |h| == 2 && (IsSpace(h[0]) || h[0] == '+') && IsHex(h[1]) then Some(HexValue(h[1]))
    else if |h| == 2 && h[0] == '-' && IsHex(h[1]) then Some(0 - HexValue(h[1]) as int)
    else None
  }

  /** `std::stoi` throws exactly when no hex digit follows the optional blank or sign. */
  lemma {:induction false} Stoi16Throws(h: string)
    requires |h| <= 2
    ensures Stoi16(h).None? <==>
      || h == []
      || (!IsHex(h[0]) && (|h| == 1 || !IsHex(h[1])))
      || (!IsHex(h[0]) && !IsSpace(h[0]) && h[0] != '+' && h[0] != '-')
  {
  }

  /** `char ascii = value`: the low byte of the converted value. */
  function ByteChar(v: int): (c: char)
    ensures c as int < 256
  {
    (v % 256) as char
  }

  /** Puts `p` in front of a successful decoding; an exception passes through. */
  function Prepend(p: string, r: Result<string>): (q: Result<string>)
    ensures q.Ok? <==> r.Ok?
  {
    match r
    case Ok(x) => Ok(p + x)
    case Err(e) => Err(e)
  }

  lemma {:induction false} PrependEmpty(r: Result<string>)
    ensures Prepend([], r) == r
  {
    if r.Ok? {
      assert [] + r.value == r.value;
    }
  }

  lemma {:induction false} PrependPrepend(a: string, b: string, r: Result<string>)
    ensures Prepend(a, Prepend(b, r)) == Prepend(a + b, r)
  {
    if r.Ok? {
      assert a + (b + r.value) == (a + b) + r.value;
    }
  }

  /** `str.substr(pos + 1, 2)`: the at most two characters after position `pos`. */
  function HexAfter(str: string, pos: nat): (h: string)
    requires pos < |str|
    ensures |h| <= 2 && pos + 1 + |h| <= |str|
  {
    str[pos + 1..Min(pos + 3, |str|)]
  }

  /**
   What `url_decode` writes in place of the start of `s`, and how many
   characters it replaces there; None when `std::stoi` throws. The
   replacement of an escape is as long as the digits `substr(pos + 1, 2)`
   found, plus the `%`.
   */
  function DecodeHead(s: string): (h: Option<(string, nat)>)
    requires s != []
    ensures h.Some? ==> |h.value.0| == 1 && 1 <= h.value.1 <= |s|
  {
    if s[0] == '+' then Some((" ", 1))
    else if s[0] == '%' then
      var hex := HexAfter(s, 0);
      match Stoi16(hex)
      case None => None
      case Some(v) => Some(([ByteChar(v)], 1 + |hex|))
    else Some(([s[0]], 1))
  }

  /**
   The decoding `url_decode` computes, one scan from left to right: what an
   escape produces is never looked at again.
   */
  function Decode(s: string): (r: Result<string>)
    ensures r.Ok? ==> |r.value| <= |s|
    decreases |s|
  {
    if s == [] then Ok([])
    else
      match DecodeHead(s)
      case None => Err("invalid_argument")
      case Some((repl, n)) => Prepend(repl, Decode(s[n..]))
  }

  /** Decoding only throws on a `%`: text without one always decodes. */
  lemma {:induction false} ErrorNeedsPercent(s: string)
    requires Decode(s).Err?
    ensures exists i :: 0 <= i < |s| && s[i] == '%'
    decreases |s|
  {
    match DecodeHead(s)
    case None =>
      assert s[0] == '%';
    case Some((repl, n)) =>
      ErrorNeedsPercent(s[n..]);
      var i :| 0 <= i < |s[n..]| && s[n..][i] == '%';
      assert s[n + i] == '%';
  }

  /** `str.find_first_of("%+", from)`, with |str| standing for npos. */
  method FindFirstOf(str: string, from: nat) returns (pos: nat)
    requires from <= |str|
    ensures from <= pos <= |str|
    ensures forall i :: from <= i < pos ==> str[i] != '%' && str[i] != '+'
    ensures pos < |str| ==> str[pos] == '%' || str[pos] == '+'
  {
    pos := from;
    while pos < |str| && str[pos] != '%' && str[pos] != '+'
      invariant from <= pos <= |str|
      invariant forall i :: from <= i < pos ==> str[i] != '%' && str[i] != '+'
    {
      pos := pos + 1;
    }
  }

  /** A stretch without `%` or `+` is copied as it is. */
  lemma {:induction false} PlainPrefix(t: string, k: nat)
    requires k <= |t|
    requires forall i :: 0 <= i < k ==> t[i] != '%' && t[i] != '+'
    ensures Decode(t) == Prepend(t[..k], Decode(t[k..]))
    decreases k
  {
    if k > 0 {
      PlainPrefix(t[1..], k - 1);
      assert t[1..][k - 1..] == t[k..];
      PrependPrepend([t[0]], t[1..][..k - 1], Decode(t[k..]));
      assert [t[0]] + t[1..][..k - 1] == t[..k];
    } else {
      assert t[..0] + [] == [];
      assert t[0..] == t;
      if Decode(t).Ok? {
        assert Decode(t).value == [] + Decode(t).value;
      }
    }
  }

  /** Facts about slicing the loop's string `out + t`, kept apart from the decoding. */
  lemma {:induction false} Splice(str: string, out: string, t: string, k: nat, repl: string)
    requires str == out + t && k <= |t|
    ensures str[..|out|] + repl + str[|out| + k..] == (out + repl) + t[k..]
    ensures str == (out + t[..k]) + t[k..]
    ensures str[|out|..] == t
  {
    assert str[..|out|] == out;
    assert str[|out| + k..] == t[k..];
    assert t[..k] + t[k..] == t;
  }

  /**
   One step of the in-place loop: `str` is `out` (already decoded) followed by
   the undecoded `t`; replacing the `consumed` characters at `|out|` by what
   they decode to keeps that shape.
   */
  lemma {:induction false} ReplaceStep(input: string, out: string, t: string, repl: string, consumed: nat)
    requires consumed <= |t|
    requires Decode(input) == Prepend(out, Decode(t))
    requires Decode(t) == Prepend(repl, Decode(t[consumed..]))
    ensures Decode(input) == Prepend(out + repl, Decode(t[consumed..]))
  {
    PrependPrepend(out, repl, Decode(t[consumed..]));
  }

  /** Copying a stretch without `%` or `+` as the loop's `find_first_of` skips it. */
  lemma {:induction false} SkipStep(input: string, str: string, out: string, t: string, k: nat)
    requires k <= |t| && str == out + t
    requires forall j :: |out| <= j < |out| + k ==> str[j] != '%' && str[j] != '+'
    requires Decode(input) == Prepend(out, Decode(t))
    ensures Decode(input) == Prepend(out + t[..k], Decode(t[k..]))
  {
    forall j | 0 <= j < k
      ensures t[j] != '%' && t[j] != '+'
    {
      assert str[|out| + j] == t[j];
    }
    PlainPrefix(t, k);
    ReplaceStep(input, out, t, t[..k], k);
  }

  /**
   The `switch` in the loop of `url_decode` at a `%` or `+`: the replacement
   and how many characters it replaces, or None when `std::stoi` throws.
   */
  method DecodeAt(str: string, pos: nat) returns (h: Option<(string, nat)>)
    requires pos < |str| && (str[pos] == '%' || str[pos] == '+')
    ensures str[pos] == '+' ==> h == Some((" ", 1))
    ensures str[pos] == '%' && pos + 2 < |str| && IsHex(str[pos + 1]) && IsHex(str[pos + 2])
      ==> h == Some(([EscapeByte(str[pos + 1], str[pos + 2])], 3))
    ensures str[pos] == '%' && pos + 1 == |str| ==> h.None?
    ensures h.Some? ==> |h.value.0| == 1 && 1 <= h.value.1 <= 3 && pos + h.value.1 <= |str|
    ensures h == DecodeHead(str[pos..])
  {
    if str[pos] == '+' {
      h := Some((" ", 1));
    } else {
      var hex := HexAfter(str, pos);
      assert hex == HexAfter(str[pos..], 0);
      if pos + 2 < |str| && IsHex(str[pos + 1]) && IsHex(str[pos + 2]) {
        assert hex == [str[pos + 1], str[pos + 2]];
        Stoi16Pair(str[pos + 1], str[pos + 2]);
      }
      var v := Stoi16(hex);
      if v.None? {
        h := None;
      } else {
        h := Some(([ByteChar(v.value)], 1 + |hex|));
      }
    }
  }

  /** One replacement of the loop: `out` grows by what the head of `t` decodes to. */
  lemma {:induction false} EscapeStep(input: string, str: string, pos: nat, out: string, t: string, repl: string, consumed: nat)
    requires pos == |out| && str == out + t && t != []
    requires Decode(input) == Prepend(out, Decode(t))
    requires DecodeHead(str[pos..]) == Some((repl, consumed))
    ensures pos + consumed <= |str| && consumed <= |t|
    ensures Decode(input) == Prepend(out + repl, Decode(t[consumed..]))
    ensures str[..pos] + repl + str[pos + consumed..] == (out + repl) + t[consumed..]
  {
    Splice(str, out, t, 0, []);
    assert DecodeHead(t) == Some((repl, consumed));
    ReplaceStep(input, out, t, repl, consumed);
    Splice(str, out, t, consumed, repl);
  }

  /** A `std::stoi` that throws ends the whole decoding with its exception. */
  lemma {:induction false} EscapeFails(input: string, str: string, out: string, t: string)
    requires str == out + t && t != []
    requires Decode(input) == Prepend(out, Decode(t))
    requires DecodeHead(str[|out|..]).None?
    ensures Decode(input) == Err("invalid_argument")
  {
    Splice(str, out, t, 0, []);
  }

  /**
   The loop of `url_decode` as written: the string is rewritten in place and
   `pos` steps past every replacement. It computes `Decode`.
   */
  method UrlDecode(input: string) returns (r: Result<string>)
    ensures r == Decode(input)
  {
    var str := input;
    var pos: nat := 0;
    ghost var out: string := [];
    ghost var t: string := input;
    PrependEmpty(Decode(input));
    while true
      invariant pos == |out| && str == out + t
      invariant Decode(input) == Prepend(out, Decode(t))
      decreases |t|
    {
      var next := FindFirstOf(str, pos);
      Splice(str, out, t, next - pos, []);
      SkipStep(input, str, out, t, next - pos);
      out, t := out + t[..next - pos], t[next - pos..];
      pos := next;
      if pos == |str| {
        break;
      }
      Splice(str, out, t, 0, []);
      var h := DecodeAt(str, pos);
      if h.None? {
        EscapeFails(input, str, out, t);
        return Err("invalid_argument");
      }
      var (repl, consumed) := h.value;
      EscapeStep(input, str, pos, out, t, repl, consumed);
      str := str[..pos] + repl + str[pos + consumed..];
      out, t := out + repl, t[consumed..];
      assert str == out + t;
      pos := pos + 1;
    }
    assert out + [] == out;
    r := Ok(str);
  }

  // ---------------------------------------------------------------------
  // Properties of the decoding.
  // ---------------------------------------------------------------------

  /** A string with no `%` and no `+` comes back unchanged. */
  lemma {:induction false} DecodeUnchanged(s: string)
    requires forall i :: 0 <= i < |s| ==> s[i] != '%' && s[i] != '+'
    ensures Decode(s) == Ok(s)
  {
    PlainPrefix(s, |s|);
    assert s[..|s|] == s && s[|s|..] == [];
    assert s + [] == s;
  }

  /** Without escapes, every `+` turns into a space and nothing else changes. */
  lemma {:induction false} PlusBecomesSpace(s: string)
    requires forall i :: 0 <= i < |s| ==> s[i] != '%'
    ensures Decode(s).Ok?
    ensures |Decode(s).value| == |s|
    ensures forall i :: 0 <= i < |s| ==> Decode(s).value[i] == (if s[i] == '+' then ' ' else s[i])
    decreases |s|
  {
    if s != [] {
      PlusBecomesSpace(s[1..]);
      var r := Decode(s).value;
      var tail := Decode(s[1..]).value;
      assert r[1..] == tail;
      forall i | 0 < i < |s|
        ensures r[i] == (if s[i] == '+' then ' ' else s[i])
      {
        assert r[i] == tail[i - 1];
        assert s[i] == s[1..][i - 1];
      }
    }
  }

  /**
   A decoded `%25` (a percent sign) is not read again as the start of an
   escape: what follows is decoded on its own.
   */
  lemma {:induction false} DecodedPercentIsFinal(t: string)
    ensures Decode("%25" + t) == Prepend("%", Decode(t))
  {
    var s := "%25" + t;
    assert HexAfter(s, 0) == "25";
    assert s[3..] == t;
    assert ByteChar(37) == '%';
  }

  /** Likewise a decoded `%2B` stays a plus sign instead of turning into a space. */
  lemma {:induction false} DecodedPlusIsFinal(t: string)
    ensures Decode("%2B" + t) == Prepend("+", Decode(t))
  {
    var s := "%2B" + t;
    assert HexAfter(s, 0) == "2B";
    assert s[3..] == t;
    assert ByteChar(43) == '+';
  }

  /** Decoding is not idempotent: "%2541" decodes to "%41", which decodes to "A". */
  lemma {:induction false} DecodeTwiceDiffers()
    ensures Decode("%2541") == Ok("%41")
    ensures Decode("%41") == Ok("A")
  {
    DecodedPercentIsFinal("41");
    assert "%25" + "41" == "%2541";
    DecodeUnchanged("41");
    assert "%" + "41" == "%41";
    var s := "%41";
    assert HexAfter(s, 0) == "41";
    assert Stoi16("41") == Some(65);
    assert s[3..] == [];
    assert ByteChar(65) == 'A';
    assert Decode(s[3..]) == Ok([]);
    assert ['A'] + [] == "A";
  }

  /**
   A `%` at the very end, or one followed by a character that is neither a
   hex digit, a blank nor a sign, makes `std::stoi` throw.
   */
  lemma {:induction false} MalformedEscapeThrows(c: char, t: string)
    requires !IsHex(c) && !IsSpace(c) && c != '+' && c != '-'
    ensures Decode("%").Err?
    ensures Decode(['%', c] + t).Err?
  {
    var s := ['%', c] + t;
    assert HexAfter(s, 0)[0] == c;
    assert HexAfter("%", 0) == [];
  }

  /** The string splits into escapes `%hh` (two hex digits) and characters other than `%`. */
  predicate WellFormed(s: string)
    decreases |s|
  {
    if s == [] then true
    else if s[0] == '%' then |s| >= 3 && IsHex(s[1]) && IsHex(s[2]) && WellFormed(s[3..])
    else WellFormed(s[1..])
  }

  /** Number of `%` characters. */
  function Escapes(s: string): nat
    decreases |s|
  {
    if s == [] then 0 else (if s[0] == '%' then 1 else 0) + Escapes(s[1..])
  }

  /** A string without `%` is well formed. */
  lemma {:induction false} NoPercentWellFormed(s: string)
    requires forall i :: 0 <= i < |s| ==> s[i] != '%'
    ensures WellFormed(s)
    decreases |s|
  {
    if s != [] {
      assert s[0] != '%';
      NoPercentWellFormed(s[1..]);
    }
  }

  /** A well-formed string decodes, and each escape shortens it by exactly two characters. */
  lemma {:induction false} DecodeLength(s: string)
    requires WellFormed(s)
    ensures Decode(s).Ok?
    ensures |Decode(s).value| == |s| - 2 * Escapes(s)
    decreases |s|
  {
    if s != [] {
      if s[0] == '%' {
        assert HexAfter(s, 0) == [s[1], s[2]];
        DecodeLength(s[3..]);
        assert s[1..][2..] == s[3..];
        assert s[1] != '%' && s[2] != '%';
        assert Escapes(s[1..]) == Escapes(s[2..]) == Escapes(s[3..]) by {
          assert s[1..][0] == s[1] && s[1..][1..] == s[2..];
          assert s[2..][0] == s[2] && s[2..][1..] == s[3..];
        }
      } else {
        DecodeLength(s[1..]);
      }
    }
  }

  lemma {:induction false} Stoi16Pair(h: char, l: char)
    requires IsHex(h) && IsHex(l)
    ensures Stoi16([h, l]) == Some(16 * HexValue(h) + HexValue(l))
  {
  }

  lemma {:induction false} HexAfterThree(s: string)
    requires |s| >= 3
    ensures HexAfter(s, 0) == [s[1], s[2]]
  {
  }

  /** The byte an escape `%hl` with two hex digits stands for. */
  function EscapeByte(h: char, l: char): char
    requires IsHex(h) && IsHex(l)
  {
    ByteChar(16 * HexValue(h) + HexValue(l))
  }

  lemma {:induction false} EscapeDecodeHead(s: string)
    requires |s| >= 3 && s[0] == '%' && IsHex(s[1]) && IsHex(s[2])
    ensures DecodeHead(s) == Some(([EscapeByte(s[1], s[2])], 3))
  {
    HexAfterThree(s);
    Stoi16Pair(s[1], s[2]);
  }

  /** An escape with two hex digits at the front decodes to one byte. */
  lemma {:induction false} EscapeHead(s: string)
    requires |s| >= 3 && s[0] == '%' && IsHex(s[1]) && IsHex(s[2])
    ensures Decode(s) == Prepend([EscapeByte(s[1], s[2])], Decode(s[3..]))
  {
    EscapeDecodeHead(s);
  }

  /** Any other character at the front decodes to itself, `+` to a space. */
  lemma {:induction false} CharHead(s: string)
    requires |s| >= 1 && s[0] != '%'
    ensures Decode(s) == Prepend(if s[0] == '+' then " " else [s[0]], Decode(s[1..]))
  {
  }

  /** One escape in front of a piece whose concatenation with `b` already splits. */
  lemma {:induction false} ConcatEscape(a: string, b: string)
    requires |a| >= 3 && a[0] == '%' && IsHex(a[1]) && IsHex(a[2])
    requires Decode(a[3..]).Ok?
    requires Decode(a[3..] + b) == Prepend(Decode(a[3..]).value, Decode(b))
    ensures Decode(a).Ok?
    ensures Decode(a + b) == Prepend(Decode(a).value, Decode(b))
  {
    EscapeHead(a);
    EscapeHeadConcat(a, b);
    PrependSteps([EscapeByte(a[1], a[2])], Decode(a), Decode(a + b), Decode(a[3..]), Decode(a[3..] + b), Decode(b));
  }

  /** The escape heading `a` also heads `a + b`. */
  lemma {:induction false} EscapeHeadConcat(a: string, b: string)
    requires |a| >= 3 && a[0] == '%' && IsHex(a[1]) && IsHex(a[2])
    ensures Decode(a + b) == Prepend([EscapeByte(a[1], a[2])], Decode(a[3..] + b))
  {
    var ab := a + b;
    assert ab[0] == a[0] && ab[1] == a[1] && ab[2] == a[2];
    assert ab[3..] == a[3..] + b;
    EscapeHead(ab);
  }

  /** The bookkeeping shared by both steps: a head in front of both decodings. */
  lemma {:induction false} PrependSteps(h: string, da: Result<string>, dab: Result<string>, d1: Result<string>, d1b: Result<string>, db: Result<string>)
    requires da == Prepend(h, d1) && dab == Prepend(h, d1b)
    requires d1.Ok? && d1b == Prepend(d1.value, db)
    ensures da.Ok? && dab == Prepend(da.value, db)
  {
    PrependPrepend(h, d1.value, db);
  }

  /** One plain character or `+` in front of a piece whose concatenation with `b` already splits. */
  lemma {:induction false} ConcatChar(a: string, b: string)
    requires |a| >= 1 && a[0] != '%'
    requires Decode(a[1..]).Ok?
    requires Decode(a[1..] + b) == Prepend(Decode(a[1..]).value, Decode(b))
    ensures Decode(a).Ok?
    ensures Decode(a + b) == Prepend(Decode(a).value, Decode(b))
  {
    CharHead(a);
    CharHeadConcat(a, b);
    PrependSteps(if a[0] == '+' then " " else [a[0]], Decode(a), Decode(a + b), Decode(a[1..]), Decode(a[1..] + b), Decode(b));
  }

  /** The character heading `a` also heads `a + b`. */
  lemma {:induction false} CharHeadConcat(a: string, b: string)
    requires |a| >= 1 && a[0] != '%'
    ensures Decode(a + b) == Prepend(if a[0] == '+' then " " else [a[0]], Decode(a[1..] + b))
  {
    var ab := a + b;
    assert ab[0] == a[0];
    assert ab[1..] == a[1..] + b;
    CharHead(ab);
  }

  /** Decoding a well-formed piece and what follows it decodes each on its own. */
  lemma {:induction false} DecodeConcat(a: string, b: string)
    requires WellFormed(a)
    ensures Decode(a).Ok?
    ensures Decode(a + b) == Prepend(Decode(a).value, Decode(b))
    decreases |a|
  {
    if a == [] {
      assert a + b == b;
      PrependEmpty(Decode(b));
    } else if a[0] == '%' {
      DecodeConcat(a[3..], b);
      ConcatEscape(a, b);
    } else {
      DecodeConcat(a[1..], b);
      ConcatChar(a, b);
    }
  }

  // ---------------------------------------------------------------------
  // The encoder a client uses, as the inverse of the decoding.
  // ---------------------------------------------------------------------

  /** The unreserved characters of section 2.3 of RFC 3986. */
  predicate Unreserved(c: char) {
    'a' <= c <= 'z' || 'A' <= c <= 'Z' || '0' <= c <= '9' || c == '-' || c == '.' || c == '_' || c == '~'
  }

  /** Each character is a '%' or unreserved. */
  predicate EncodedChars(e: string) {
    forall i :: 0 <= i < |e| ==> e[i] == '%' || Unreserved(e[i])
  }

  /** The two upper-case hex digits of a byte, high one first. */
  function HexPair(c: char): (p: (char, char))
    requires c as int < 256
    ensures IsHex(p.0) && IsHex(p.1)
    ensures EscapeByte(p.0, p.1) == c
  {
    var b := c as int;
    assert 16 * (b / 16) + b % 16 == b;
    (HexDigit(b / 16), HexDigit(b % 16))
  }

  /** One byte as the encoder writes it: itself when unreserved, otherwise `%` and its two hex digits. */
  function EncodeByte(c: char): (e: string)
    requires c as int < 256
    ensures WellFormed(e) && EncodedChars(e)
  {
    if Unreserved(c) then [c] else ['%', HexPair(c).0, HexPair(c).1]
  }

  lemma {:induction false} WellFormedEscapeCons(a: string, b: string)
    requires |a| >= 3 && a[0] == '%' && IsHex(a[1]) && IsHex(a[2])
    requires WellFormed(a[3..] + b)
    ensures WellFormed(a + b)
  {
    var ab := a + b;
    assert ab[0] == '%' && ab[1] == a[1] && ab[2] == a[2];
    assert ab[3..] == a[3..] + b;
  }

  lemma {:induction false} WellFormedCharCons(a: string, b: string)
    requires |a| >= 1 && a[0] != '%'
    requires WellFormed(a[1..] + b)
    ensures WellFormed(a + b)
  {
    var ab := a + b;
    assert ab[0] == a[0];
    assert ab[1..] == a[1..] + b;
  }

  lemma {:induction false} WellFormedConcat(a: string, b: string)
    requires WellFormed(a) && WellFormed(b)
    ensures WellFormed(a + b)
    decreases |a|
  {
    if a == [] {
      assert a + b == b;
    } else if a[0] == '%' {
      WellFormedConcat(a[3..], b);
      WellFormedEscapeCons(a, b);
    } else {
      WellFormedConcat(a[1..], b);
      WellFormedCharCons(a, b);
    }
  }

  lemma {:induction false} EncodedCharsConcat(a: string, b: string)
    requires EncodedChars(a) && EncodedChars(b)
    ensures EncodedChars(a + b)
  {
    var ab := a + b;
    forall i | 0 <= i < |ab| ensures ab[i] == '%' || Unreserved(ab[i]) {
      if i < |a| {
        assert ab[i] == a[i];
      } else {
        assert ab[i] == b[i - |a|];
      }
    }
  }

  /** Percent-encodes every byte that is not unreserved, with upper-case hex digits. */
  function Encode(s: string): (e: string)
    requires IsBytes(s)
    ensures WellFormed(e)
    ensures EncodedChars(e)
    decreases |s|
  {
    if s == [] then []
    else
      var head := EncodeByte(s[0]);
      var tail := Encode(s[1..]);
      WellFormedConcat(head, tail);
      EncodedCharsConcat(head, tail);
      head + tail
  }

  lemma {:induction false} EncodeCons(s: string)
    requires IsBytes(s) && s != []
    ensures Encode(s) == EncodeByte(s[0]) + Encode(s[1..])
  {
  }

  /** An unreserved byte in front survives the round trip. */
  lemma {:induction false} DecodeEncodeUnreserved(s: string)
    requires IsBytes(s) && s != [] && Unreserved(s[0])
    requires Decode(Encode(s[1..])) == Ok(s[1..])
    ensures Decode(Encode(s)) == Ok(s)
  {
    var e := Encode(s);
    EncodeCons(s);
    assert e[0] == s[0] && e[1..] == Encode(s[1..]);
    CharHead(e);
    assert [s[0]] + s[1..] == s;
  }

  /** An escaped byte in front survives the round trip. */
  lemma {:induction false} DecodeEncodeEscaped(s: string)
    requires IsBytes(s) && s != [] && !Unreserved(s[0])
    requires Decode(Encode(s[1..])) == Ok(s[1..])
    ensures Decode(Encode(s)) == Ok(s)
  {
    var e := Encode(s);
    var p := HexPair(s[0]);
    EncodeCons(s);
    assert e[0] == '%' && e[1] == p.0 && e[2] == p.1;
    assert e[3..] == Encode(s[1..]);
    EscapeHead(e);
    assert Decode(e) == Prepend([s[0]], Ok(s[1..]));
    assert [s[0]] + s[1..] == s;
  }

  /** Decoding undoes the encoding, for every byte string. */
  lemma {:induction false} DecodeEncode(s: string)
    requires IsBytes(s)
    ensures Decode(Encode(s)) == Ok(s)
    decreases |s|
  {
    if s != [] {
      DecodeEncode(s[1..]);
      if Unreserved(s[0]) {
        DecodeEncodeUnreserved(s);
      } else {
        DecodeEncodeEscaped(s);
      }
    }
  }
}
