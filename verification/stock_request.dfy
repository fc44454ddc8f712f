/**
 How `clientThread` turns the request target of `GET <target> HTTP/1.1` into
 the transaction, the stock name and the amount: url-decode the target, turn
 every `&` and `=` into a space, and read the words at positions 1, 3 and 5
 with `operator>>` (the amount as an `unsigned int`).
 */
module StockRequest {
  import opened Text
  import opened UrlCodec
  import opened StockLedger

  /** What `clientThread` hands to `processTrans`. */
  datatype Fields = Fields(trans: string, name: string, amount: Uint32)

  predicate IsSeparator(c: char) {
    c == '&' || c == '='
  }

  /** The two `std::replace` calls: `&` and `=` become spaces. */
  function ReplaceSeparators(s: string): (r: string)
    ensures |r| == |s|
    ensures forall i :: 0 <= i < |s| ==> r[i] == (if IsSeparator(s[i]) then ' ' else s[i])
    decreases |s|
  {
    if s == [] then [] else [if IsSeparator(s[0]) then ' ' else s[0]] + ReplaceSeparators(s[1..])
  }

  lemma {:induction false} ReplaceSeparatorsConcat(a: string, b: string)
    ensures ReplaceSeparators(a + b) == ReplaceSeparators(a) + ReplaceSeparators(b)
  {
  }

  lemma {:induction false} ReplaceSeparatorsNone(s: string)
    requires forall i :: 0 <= i < |s| ==> !IsSeparator(s[i])
    ensures ReplaceSeparators(s) == s
  {
  }

  // ---------------------------------------------------------------------
  // `is >> amount` for an `unsigned int`, as libstdc++'s num_get reads it.
  // ---------------------------------------------------------------------

  /**
   Reading an `unsigned int` from a word: an optional sign, then the longest
   digit run. No digits is a failure and stores 0; a value above UINT_MAX
   stores UINT_MAX; a `-` negates modulo 2^32.
   */
  function ReadUnsigned(w: string): (n: Uint32)
    ensures (w == [] || !(IsDigit(w[0]) || w[0] == '+' || w[0] == '-')) ==> n == 0
  {
    var signed := |w| > 0 && (w[0] == '+' || w[0] == '-');
    var digits := DigitRun(if signed then w[1..] else w);
    if digits == [] then 0 else Magnitude(digits, signed && w[0] == '-')
  }

  /** The value stored for a digit run: UINT_MAX when too large, negated modulo 2^32 after a `-`. */
  function Magnitude(digits: string, negative: bool): (n: Uint32)
    requires AllDigits(digits)
    ensures ParseDecimal(digits) >= U32_LIMIT ==> n == U32_LIMIT - 1
    ensures ParseDecimal(digits) < U32_LIMIT && !negative ==> n == ParseDecimal(digits)
    ensures ParseDecimal(digits) < U32_LIMIT && negative ==> (n + ParseDecimal(digits)) % U32_LIMIT == 0
  {
    var v := ParseDecimal(digits);
    if v >= U32_LIMIT then U32_LIMIT - 1
    else if negative then (if v == 0 then 0 else U32_LIMIT - v)
    else v
  }

  /** Reading an optional sign and a digit string that ends the word. */
  lemma {:induction false} ReadSignedDigits(sign: string, d: string)
    requires sign == "" || sign == "+" || sign == "-"
    requires AllDigits(d) && d != []
    ensures var v := ParseDecimal(d);
      ReadUnsigned(sign + d) ==
        if v >= U32_LIMIT then U32_LIMIT - 1 else if sign == "-" && v > 0 then U32_LIMIT - v else v
  {
    if sign == "" {
      assert sign + d == d;
      ReadUnsignedPlain(d);
    } else {
      assert sign == [sign[0]];
      ReadUnsignedSign(sign[0], d);
    }
  }

  lemma {:induction false} ReadUnsignedPlain(d: string)
    requires AllDigits(d) && d != []
    ensures ReadUnsigned(d) == Magnitude(d, false)
  {
    DigitRunWhole(d);
    assert IsDigit(d[0]);
  }

  lemma {:induction false} ReadUnsignedSign(c: char, d: string)
    requires c == '+' || c == '-'
    requires AllDigits(d) && d != []
    ensures ReadUnsigned([c] + d) == Magnitude(d, c == '-')
  {
    DigitRunWhole(d);
    assert ([c] + d)[1..] == d;
  }

  /** A printed amount, followed by anything but a digit, reads back as itself. */
  lemma {:induction false} ReadUnsignedNumeral(n: Uint32, t: string)
    requires t == [] || !IsDigit(t[0])
    ensures ReadUnsigned(NatToString(n) + t) == n
  {
    var s := NatToString(n);
    DigitRunAll(s, t);
    ParseNatToString(n);
    assert (s + t)[0] == s[0];
  }

  /** `-n` wraps to 2^32 - n, so a negative amount becomes a huge one. */
  lemma {:induction false} ReadUnsignedNegative(n: Uint32)
    requires n > 0
    ensures ReadUnsigned("-" + NatToString(n)) == U32_LIMIT - n
  {
    ReadSignedDigits("-", NatToString(n));
    ParseNatToString(n);
  }

  /** An amount beyond UINT_MAX, with or without a sign, saturates to UINT_MAX. */
  lemma {:induction false} ReadUnsignedOverflow(n: nat, sign: string)
    requires n >= U32_LIMIT
    requires sign == "" || sign == "+" || sign == "-"
    ensures ReadUnsigned(sign + NatToString(n)) == U32_LIMIT - 1
  {
    ReadSignedDigits(sign, NatToString(n));
    ParseNatToString(n);
  }

  /** A sign with no digit after it is a failed read: the amount is 0. */
  lemma {:induction false} ReadUnsignedBareSign(c: char, t: string)
    requires c == '+' || c == '-'
    requires t == [] || !IsDigit(t[0])
    ensures ReadUnsigned([c] + t) == 0
  {
    assert ([c] + t)[1..] == t;
  }

  // ---------------------------------------------------------------------
  // The whole request target.
  // ---------------------------------------------------------------------

  /** Words 1, 3 and 5 of the decoded target once `&` and `=` are spaces. */
  function ParseQuery(decoded: string): (f: Fields)
    ensures var ws := Tokens(ReplaceSeparators(decoded));
      && (|ws| > 1 ==> f.trans == ws[1])
      && (|ws| > 3 ==> f.name == ws[3])
      && (|ws| <= 1 ==> f.trans == "")
      && (|ws| <= 3 ==> f.name == "")
      && (|ws| <= 5 ==> f.amount == 0)
      && (|ws| > 5 ==> f.amount == ReadUnsigned(ws[5]))
  {
    var ws := Tokens(ReplaceSeparators(decoded));
    Fields(Nth(ws, 1), Nth(ws, 3), if |ws| > 5 then ReadUnsigned(ws[5]) else 0)
  }

  /** `clientThread` up to the call of `processTrans`; Err when `url_decode` throws. */
  function ParseTarget(target: string): (r: Result<Fields>)
    ensures r.Ok? <==> Decode(target).Ok?
    ensures r.Ok? ==> r.value == ParseQuery(Decode(target).value)
  {
    var decoded :- Decode(target);
    Ok(ParseQuery(decoded))
  }

  /** A value a client can place in the target: bytes, one word, no `&` or `=`. */
  predicate PlainField(w: string) {
    IsBytes(w) && IsWord(w) && forall i :: 0 <= i < |w| ==> !IsSeparator(w[i])
  }

  /** `/?trans=<trans>&name=<name>&trade=<trade>` */
  function Query(trans: string, name: string, trade: string): string {
    "/?trans=" + (trans + ("&name=" + (name + ("&trade=" + trade))))
  }

  /** The target a client sends, with the values percent-encoded. */
  function FormatTarget(trans: string, name: string, amount: nat): string
    requires IsBytes(trans) && IsBytes(name)
  {
    Query(Encode(trans), Encode(name), NatToString(amount))
  }

  lemma {:induction false} DecodeAppend(a: string, b: string)
    requires WellFormed(a) && Decode(b).Ok?
    ensures Decode(a).Ok?
    ensures Decode(a + b) == Ok(Decode(a).value + Decode(b).value)
  {
    DecodeConcat(a, b);
  }

  /** Text `url_decode` copies unchanged: no '%' and no '+'. */
  predicate Verbatim(a: string) {
    forall i :: 0 <= i < |a| ==> a[i] != '%' && a[i] != '+'
  }

  lemma {:induction false} QueryLiteralsVerbatim()
    ensures Verbatim("/?trans=") && Verbatim("&name=") && Verbatim("&trade=")
  {
  }

  lemma {:induction false} DecodeLiteral(a: string, b: string)
    requires Verbatim(a) && Decode(b).Ok?
    ensures Decode(a + b) == Ok(a + Decode(b).value)
  {
    DecodeUnchanged(a);
    NoPercentWellFormed(a);
    DecodeAppend(a, b);
  }

  lemma {:induction false} DecodeEncoded(s: string, b: string)
    requires IsBytes(s) && Decode(b).Ok?
    ensures Decode(Encode(s) + b) == Ok(s + Decode(b).value)
  {
    DecodeEncode(s);
    DecodeAppend(Encode(s), b);
  }

  lemma {:induction false} DecodeNumeral(n: nat)
    ensures Decode(NatToString(n)) == Ok(NatToString(n))
  {
    DecodeUnchanged(NatToString(n));
  }

  /** The decoded target is the query with the values in clear. */
  lemma {:induction false} DecodeFormatted(trans: string, name: string, amount: nat)
    requires IsBytes(trans) && IsBytes(name)
    ensures Decode(FormatTarget(trans, name, amount)) == Ok(Query(trans, name, NatToString(amount)))
  {
    var num := NatToString(amount);
    var t4 := "&trade=" + num;
    var t3 := Encode(name) + t4;
    var t2 := "&name=" + t3;
    var t1 := Encode(trans) + t2;
    DecodeNumeral(amount);
    QueryLiteralsVerbatim();
    DecodeLiteral("&trade=", num);
    assert Decode(t4) == Ok(t4);
    DecodeEncoded(name, t4);
    assert Decode(t3) == Ok(name + t4);
    DecodeLiteral("&name=", t3);
    assert Decode(t2) == Ok("&name=" + (name + t4));
    DecodeEncoded(trans, t2);
    assert Decode(t1) == Ok(trans + ("&name=" + (name + t4)));
    DecodeLiteral("/?trans=", t1);
  }

  lemma {:induction false} ReplaceSeparatorsJoin(a: string, b: string, a2: string, b2: string)
    requires ReplaceSeparators(a) == a2 && ReplaceSeparators(b) == b2
    ensures ReplaceSeparators(a + b) == a2 + b2
  {
    ReplaceSeparatorsConcat(a, b);
  }

  lemma {:induction false} DigitsHaveNoSeparator(num: string)
    requires AllDigits(num)
    ensures ReplaceSeparators(num) == num
  {
    forall i | 0 <= i < |num| ensures !IsSeparator(num[i]) {
      assert IsDigit(num[i]);
    }
    ReplaceSeparatorsNone(num);
  }

  lemma {:induction false} SeparatorsTrans()
    ensures ReplaceSeparators("/?trans=") == "/?trans "
  {
  }

  lemma {:induction false} SeparatorsName()
    ensures ReplaceSeparators("&name=") == " name "
  {
  }

  lemma {:induction false} SeparatorsTrade()
    ensures ReplaceSeparators("&trade=") == " trade "
  {
  }

  lemma {:induction false} SeparatedFormatted(trans: string, name: string, num: string)
    requires PlainField(trans) && PlainField(name) && AllDigits(num)
    ensures ReplaceSeparators(Query(trans, name, num))
         == "/?trans " + (trans + (" name " + (name + (" trade " + num))))
  {
    SeparatorsTrans();
    SeparatorsName();
    SeparatorsTrade();
    ReplaceSeparatorsNone(trans);
    ReplaceSeparatorsNone(name);
    DigitsHaveNoSeparator(num);
    ReplaceSeparatorsJoin("&trade=", num, " trade ", num);
    ReplaceSeparatorsJoin(name, "&trade=" + num, name, " trade " + num);
    ReplaceSeparatorsJoin("&name=", name + ("&trade=" + num), " name ", name + (" trade " + num));
    ReplaceSeparatorsJoin(trans, "&name=" + (name + ("&trade=" + num)), trans, " name " + (name + (" trade " + num)));
    ReplaceSeparatorsJoin("/?trans=", trans + ("&name=" + (name + ("&trade=" + num))),
                          "/?trans ", trans + (" name " + (name + (" trade " + num))));
  }

  lemma {:induction false} JoinFormatted(trans: string, name: string, num: string)
    ensures JoinSpace(["/?trans", trans, "name", name, "trade", num])
         == "/?trans " + (trans + (" name " + (name + (" trade " + num))))
  {
    var ws := ["/?trans", trans, "name", name, "trade", num];
    assert ws[1..][1..][1..][1..][1..] == [num];
    assert JoinSpace(["trade", num]) == "trade" + (" " + num);
    assert JoinSpace([name, "trade", num]) == name + (" " + ("trade" + (" " + num)));
    assert JoinSpace(["name", name, "trade", num]) == "name" + (" " + (name + (" " + ("trade" + (" " + num)))));
    assert JoinSpace([trans, "name", name, "trade", num])
        == trans + (" " + ("name" + (" " + (name + (" " + ("trade" + (" " + num)))))));
  }

  lemma {:induction false} NumeralIsWord(n: nat)
    ensures IsWord(NatToString(n))
  {
    var num := NatToString(n);
    forall i | 0 <= i < |num| ensures !IsSpace(num[i]) {
      assert IsDigit(num[i]);
    }
  }

  /** The words of a formatted query, once `&` and `=` are spaces. */
  lemma {:induction false} TokensFormatted(trans: string, name: string, amount: nat)
    requires PlainField(trans) && PlainField(name)
    ensures Tokens(ReplaceSeparators(Query(trans, name, NatToString(amount))))
         == ["/?trans", trans, "name", name, "trade", NatToString(amount)]
  {
    var num := NatToString(amount);
    var ws := ["/?trans", trans, "name", name, "trade", num];
    SeparatedFormatted(trans, name, num);
    JoinFormatted(trans, name, num);
    NumeralIsWord(amount);
    assert NoSpace("/?trans") && NoSpace("name") && NoSpace("trade");
    assert forall k :: 0 <= k < |ws| ==> IsWord(ws[k]);
    TokensOfJoin(ws);
  }

  /**
   The server reads back exactly the transaction, name and amount a client
   put into the target, for values that are non-empty words without blanks,
   `&` or `=`; any other byte (`%`, `+`, `?`, ...) is carried through the
   encoding.
   */
  lemma {:induction false} ParseFormatted(trans: string, name: string, amount: Uint32)
    requires PlainField(trans) && PlainField(name)
    ensures ParseTarget(FormatTarget(trans, name, amount)) == Ok(Fields(trans, name, amount))
  {
    DecodeFormatted(trans, name, amount);
    ParseQueryFormatted(trans, name, amount);
  }

  /**
   A name holding `&` does not survive: the target is decoded before it is
   split, so the `&` of a name "a&b" separates "a" from "b", and the amount
   is then read from the word "trade", which holds no digit.
   */
  lemma {:induction false} SeparatorInNameShifts(trans: string, a: string, b: string, amount: Uint32)
    requires PlainField(trans) && PlainField(a) && PlainField(b)
    ensures IsBytes(a + "&" + b)
    ensures ParseTarget(FormatTarget(trans, a + "&" + b, amount)) == Ok(Fields(trans, a, 0))
  {
    var name := a + "&" + b;
    assert IsBytes(name) by {
      forall i | 0 <= i < |name| ensures name[i] as int < 256 {
        if i < |a| { assert name[i] == a[i]; }
        else if i > |a| { assert name[i] == b[i - |a| - 1]; }
      }
    }
    var num := NatToString(amount);
    var ws := ["/?trans", trans, "name", a, b, "trade", num];
    DecodeFormatted(trans, name, amount);
    TokensShifted(trans, a, b, amount);
    ParseQueryOfTokens(Query(trans, name, num), ws);
    assert ws[5] == "trade";
  }

  /** The words of a formatted query whose name is two words joined by `&`. */
  lemma {:induction false} TokensShifted(trans: string, a: string, b: string, amount: nat)
    requires PlainField(trans) && PlainField(a) && PlainField(b)
    ensures Tokens(ReplaceSeparators(Query(trans, a + "&" + b, NatToString(amount))))
         == ["/?trans", trans, "name", a, b, "trade", NatToString(amount)]
  {
    var num := NatToString(amount);
    var ws := ["/?trans", trans, "name", a, b, "trade", num];
    SeparatedShifted(trans, a, b, num);
    JoinShifted(trans, a, b, num);
    NumeralIsWord(amount);
    assert NoSpace("/?trans") && NoSpace("name") && NoSpace("trade");
    assert forall k :: 0 <= k < |ws| ==> IsWord(ws[k]);
    TokensOfJoin(ws);
  }

  lemma {:induction false} SeparatedShifted(trans: string, a: string, b: string, num: string)
    requires PlainField(trans) && PlainField(a) && PlainField(b) && AllDigits(num)
    ensures ReplaceSeparators(Query(trans, a + "&" + b, num))
         == "/?trans " + (trans + (" name " + (a + (" " + (b + (" trade " + num))))))
  {
    var t3 := "&name=" + (a + ("&" + (b + ("&trade=" + num))));
    var u3 := " name " + (a + (" " + (b + (" trade " + num))));
    assert Query(trans, a + "&" + b, num) == "/?trans=" + (trans + t3);
    SeparatedNameTail(a, b, num);
    SeparatorsTrans();
    ReplaceSeparatorsNone(trans);
    ReplaceSeparatorsJoin(trans, t3, trans, u3);
    ReplaceSeparatorsJoin("/?trans=", trans + t3, "/?trans ", trans + u3);
  }

  lemma {:induction false} SeparatedNameTail(a: string, b: string, num: string)
    requires PlainField(a) && PlainField(b) && AllDigits(num)
    ensures ReplaceSeparators("&name=" + (a + ("&" + (b + ("&trade=" + num)))))
         == " name " + (a + (" " + (b + (" trade " + num))))
  {
    var t5 := b + ("&trade=" + num);
    var u5 := b + (" trade " + num);
    SeparatedTradeTail(b, num);
    SeparatorsName();
    assert ReplaceSeparators("&") == " ";
    ReplaceSeparatorsNone(a);
    ReplaceSeparatorsJoin("&", t5, " ", u5);
    ReplaceSeparatorsJoin(a, "&" + t5, a, " " + u5);
    ReplaceSeparatorsJoin("&name=", a + ("&" + t5), " name ", a + (" " + u5));
  }

  lemma {:induction false} SeparatedTradeTail(b: string, num: string)
    requires PlainField(b) && AllDigits(num)
    ensures ReplaceSeparators(b + ("&trade=" + num)) == b + (" trade " + num)
  {
    SeparatorsTrade();
    ReplaceSeparatorsNone(b);
    DigitsHaveNoSeparator(num);
    ReplaceSeparatorsJoin("&trade=", num, " trade ", num);
    ReplaceSeparatorsJoin(b, "&trade=" + num, b, " trade " + num);
  }

  lemma {:induction false} JoinShifted(trans: string, a: string, b: string, num: string)
    ensures JoinSpace(["/?trans", trans, "name", a, b, "trade", num])
         == "/?trans " + (trans + (" name " + (a + (" " + (b + (" trade " + num))))))
  {
    var ws := ["/?trans", trans, "name", a, b, "trade", num];
    assert ws[1..][1..][1..][1..][1..][1..] == [num];
    assert JoinSpace(["trade", num]) == "trade" + (" " + num);
    assert JoinSpace([b, "trade", num]) == b + (" " + ("trade" + (" " + num)));
    assert JoinSpace([a, b, "trade", num]) == a + (" " + (b + (" " + ("trade" + (" " + num)))));
    assert JoinSpace(["name", a, b, "trade", num])
        == "name" + (" " + (a + (" " + (b + (" " + ("trade" + (" " + num)))))));
    assert JoinSpace([trans, "name", a, b, "trade", num])
        == trans + (" " + ("name" + (" " + (a + (" " + (b + (" " + ("trade" + (" " + num)))))))));
  }

  /** The fields read from a query in clear are the values it was built from. */
  lemma {:induction false} ParseQueryFormatted(trans: string, name: string, amount: Uint32)
    requires PlainField(trans) && PlainField(name)
    ensures ParseQuery(Query(trans, name, NatToString(amount))) == Fields(trans, name, amount)
  {
    var num := NatToString(amount);
    var ws := ["/?trans", trans, "name", name, "trade", num];
    TokensFormatted(trans, name, amount);
    ParseQueryOfTokens(Query(trans, name, num), ws);
    assert ws[1] == trans && ws[3] == name && ws[5] == num;
    ReadUnsignedNumeral(amount, []);
    assert num + [] == num;
  }

  /** `%26` is an escaped `&`; what follows it is decoded on its own. */
  lemma {:induction false} DecodedAmpersand(t: string)
    ensures Decode("%26" + t) == Prepend("&", Decode(t))
  {
    var s := "%26" + t;
    assert HexAfter(s, 0) == "26";
    assert s[3..] == t;
    assert ByteChar(38) == '&';
  }

  /**
   The target is decoded before it is split, so an encoded `%26` separates
   the fields exactly as a literal `&` does.
   */
  lemma {:induction false} EncodedAmpersandSeparates(trans: string, name: string, amount: Uint32)
    requires PlainField(trans) && PlainField(name) && Verbatim(trans) && Verbatim(name)
    ensures ParseTarget("/?trans=" + (trans + ("%26" + ("name=" + (name + ("&trade=" + NatToString(amount)))))))
         == Ok(Fields(trans, name, amount))
  {
    DecodedAmpersandQuery(trans, name, amount);
    ParseQueryFormatted(trans, name, amount);
  }

  lemma {:induction false} DecodedAmpersandQuery(trans: string, name: string, amount: nat)
    requires Verbatim(trans) && Verbatim(name)
    ensures Decode("/?trans=" + (trans + ("%26" + ("name=" + (name + ("&trade=" + NatToString(amount)))))))
         == Ok(Query(trans, name, NatToString(amount)))
  {
    var t3 := name + ("&trade=" + NatToString(amount));
    DecodedQueryTail(name, amount);
    DecodedAmpersandName(t3);
    DecodeLiteral(trans, "%26" + ("name=" + t3));
    QueryLiteralsVerbatim();
    DecodeLiteral("/?trans=", trans + ("%26" + ("name=" + t3)));
  }

  lemma {:induction false} DecodedAmpersandName(t3: string)
    requires Decode(t3) == Ok(t3)
    ensures Decode("%26" + ("name=" + t3)) == Ok("&name=" + t3)
  {
    NameVerbatim();
    DecodeLiteral("name=", t3);
    DecodedAmpersand("name=" + t3);
    AmpersandName(t3);
  }

  lemma {:induction false} NameVerbatim()
    ensures Verbatim("name=")
  {
  }

  lemma {:induction false} AmpersandName(t: string)
    ensures "&" + ("name=" + t) == "&name=" + t
  {
  }

  lemma {:induction false} DecodedQueryTail(name: string, amount: nat)
    requires Verbatim(name)
    ensures var t3 := name + ("&trade=" + NatToString(amount)); Decode(t3) == Ok(t3)
  {
    var num := NatToString(amount);
    DecodeNumeral(amount);
    QueryLiteralsVerbatim();
    DecodeLiteral("&trade=", num);
    DecodeLiteral(name, "&trade=" + num);
  }

  /** A query of six words or more gives the second, the fourth and the number read from the sixth. */
  lemma {:induction false} ParseQueryOfTokens(decoded: string, ws: seq<string>)
    requires Tokens(ReplaceSeparators(decoded)) == ws && |ws| >= 6
    ensures ParseQuery(decoded) == Fields(ws[1], ws[3], ReadUnsigned(ws[5]))
  {
  }
}
