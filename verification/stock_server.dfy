/**
 One `clientThread` run, end to end. `is >> dummy >> request` reads the
 second whitespace-separated word of the whole request stream (it crosses
 line ends), the `getline` loop then skips to the first lone `\r` line, and
 the target is parsed, run against the ledger and framed. A stream with
 fewer than two words fails the extraction, and a stream that ends before
 the lone `\r` line leaves the loop spinning forever (`Hangs`). A `buy`
 that must wait leaves the thread `Waiting`; an exception from
 `url_decode` is not caught anywhere, so it ends the server (`Aborted`).
 */
module StockServer {
  import opened Text
  import opened UrlCodec
  import opened StockLedger
  import opened StockRequest
  import opened HttpFraming

  datatype Reply = Replied(ledger: Ledger, response: string) | Waiting | Aborted | Hangs

  /**
   `is >> dummy >> request`: the second word of the stream and the stream
   after it, or None when the stream holds fewer than two words.
   */
  function RequestTarget(request: string): (r: Option<(string, string)>)
    ensures r.None? <==> |Tokens(request)| < 2
    ensures r.Some? ==> r.value.0 == Tokens(request)[1]
  {
    match ReadWord(request)
    case None => None
    case Some((_, rest)) => ReadWord(rest)
  }

  /** The header loop stops: a lone `\r` line follows the target. */
  predicate HeadEnds(request: string) {
    RequestTarget(request).Some? && ReadHead(RequestTarget(request).value.1).Some?
  }

  function ClientThread(v: Variant, l: Ledger, request: string): (r: Reply)
    ensures r.Hangs? <==> !HeadEnds(request)
    ensures |Tokens(request)| < 2 ==> r.Hangs?
    ensures HeadEnds(request) ==> (r.Aborted? <==> Decode(Tokens(request)[1]).Err?)
    ensures r.Replied? && Valid(l) ==> Valid(r.ledger)
  {
    match RequestTarget(request)
    case None => Hangs
    case Some((target, rest)) =>
      if ReadHead(rest).None? then Hangs
      else
        match ParseTarget(target)
        case Err(_) => Aborted
        case Ok(f) =>
          match ProcessTrans(v, l, f.trans, f.name, f.amount)
          case Blocked => Waiting
          case Done(l2, msg) => Replied(l2, SendResponse(msg))
  }

  /** Every reply the server sends reads back as a 200 whose Content-Length matches its body. */
  lemma {:induction false} RepliesAreFramed(v: Variant, l: Ledger, request: string)
    requires ClientThread(v, l, request).Replied?
    ensures var resp := ReadResponse(ClientThread(v, l, request).response);
      && resp.Some?
      && resp.value.status == "HTTP/1.1 200 OK"
      && ContentLength(resp.value.headers) == Some(|resp.value.body|)
  {
    var f := ParseTarget(RequestTarget(request).value.0).value;
    var o := ProcessTrans(v, l, f.trans, f.name, f.amount);
    ResponseRoundTrip(o.msg);
  }

  lemma {:induction false} NoSpaceConcat(a: string, b: string)
    requires NoSpace(a) && NoSpace(b)
    ensures NoSpace(a + b)
  {
    assert forall i :: 0 <= i < |a + b| ==> (a + b)[i] == (if i < |a| then a[i] else b[i - |a|]);
  }

  lemma {:induction false} EncodedNoSpace(s: string)
    requires IsBytes(s)
    ensures NoSpace(Encode(s))
  {
    var e := Encode(s);
    forall i | 0 <= i < |e| ensures !IsSpace(e[i]) {
      assert e[i] == '%' || Unreserved(e[i]);
    }
  }

  lemma {:induction false} QueryLiteralsNoSpace()
    ensures NoSpace("/?trans=") && NoSpace("&name=") && NoSpace("&trade=")
  {
  }

  lemma {:induction false} QueryNoSpace(a: string, b: string, c: string)
    requires NoSpace(a) && NoSpace(b) && NoSpace(c)
    ensures NoSpace(Query(a, b, c))
  {
    QueryLiteralsNoSpace();
    NoSpaceConcat("&trade=", c);
    NoSpaceConcat(b, "&trade=" + c);
    NoSpaceConcat("&name=", b + ("&trade=" + c));
    NoSpaceConcat(a, "&name=" + (b + ("&trade=" + c)));
    NoSpaceConcat("/?trans=", a + ("&name=" + (b + ("&trade=" + c))));
  }

  /** The target a client formats is a single word of the request line. */
  lemma {:induction false} FormattedIsWord(trans: string, name: string, amount: nat)
    requires IsBytes(trans) && IsBytes(name)
    ensures IsWord(FormatTarget(trans, name, amount))
  {
    EncodedNoSpace(trans);
    EncodedNoSpace(name);
    NumeralIsWord(amount);
    QueryNoSpace(Encode(trans), Encode(name), NatToString(amount));
  }

  /** `is >> word` passes over leading whitespace, line ends included. */
  lemma {:induction false} ReadWordSkips(blank: string, s: string)
    requires forall i :: 0 <= i < |blank| ==> IsSpace(blank[i])
    ensures ReadWord(blank + s) == ReadWord(s)
    decreases |blank|
  {
    if blank != [] {
      assert (blank + s)[0] == blank[0];
      assert (blank + s)[1..] == blank[1..] + s;
      ReadWordSkips(blank[1..], s);
    } else {
      assert blank + s == s;
    }
  }

  /** A word followed by whitespace (or nothing) is read whole. */
  lemma {:induction false} ReadWordOf(w: string, rest: string)
    requires IsWord(w)
    requires rest == [] || IsSpace(rest[0])
    ensures ReadWord(w + rest) == Some((w, rest))
  {
    assert (w + rest)[0] == w[0];
    WordOfPrefix(w, rest);
    assert (w + rest)[|w|..] == rest;
  }

  /** The status-line remainder and headers a client sends after the target. */
  function RequestTail(headers: seq<string>): string {
    CrlfLines([" HTTP/1.1"] + headers) + "\r\n"
  }

  /** The request a client sends for one transaction, with its header lines. */
  function Request(trans: string, name: string, amount: nat, headers: seq<string>): string
    requires IsBytes(trans) && IsBytes(name)
  {
    "GET" + (" " + (FormatTarget(trans, name, amount) + RequestTail(headers)))
  }

  lemma {:induction false} TailStartsWithBlank(headers: seq<string>)
    ensures RequestTail(headers) != [] && RequestTail(headers)[0] == ' '
  {
    var ls := [" HTTP/1.1"] + headers;
    assert ls[0] == " HTTP/1.1";
    assert CrlfLines(ls) == " HTTP/1.1" + ("\r\n" + CrlfLines(ls[1..]));
  }

  /** The server reads back the target a client formats, and the header loop ends. */
  lemma {:induction false} TargetOfRequest(trans: string, name: string, amount: nat, headers: seq<string>)
    requires IsBytes(trans) && IsBytes(name)
    requires forall k :: 0 <= k < |headers| ==> NoNewline(headers[k]) && headers[k] != []
    ensures RequestTarget(Request(trans, name, amount, headers))
         == Some((FormatTarget(trans, name, amount), RequestTail(headers)))
    ensures HeadEnds(Request(trans, name, amount, headers))
  {
    var target := FormatTarget(trans, name, amount);
    var tail := RequestTail(headers);
    FormattedIsWord(trans, name, amount);
    assert IsWord("GET");
    ReadWordOf("GET", " " + (target + tail));
    ReadWordSkips(" ", target + tail);
    TailStartsWithBlank(headers);
    ReadWordOf(target, tail);
    var ls := [" HTTP/1.1"] + headers;
    assert forall k :: 0 <= k < |ls| ==> NoNewline(ls[k]) && ls[k] != [] by {
      forall k | 0 <= k < |ls| ensures NoNewline(ls[k]) && ls[k] != [] {
        if k > 0 {
          assert ls[k] == headers[k - 1];
        }
      }
    }
    ReadHeadOf(ls, []);
    assert "\r\n" + [] == "\r\n";
  }

  /**
   A well-formed request for a transaction runs exactly that transaction:
   the server waits when `processTrans` would block, and otherwise replies
   with its message, framed.
   */
  lemma {:induction false} ServesTransaction(v: Variant, l: Ledger, trans: string, name: string, amount: Uint32, headers: seq<string>)
    requires PlainField(trans) && PlainField(name)
    requires forall k :: 0 <= k < |headers| ==> NoNewline(headers[k]) && headers[k] != []
    ensures var r := ClientThread(v, l, Request(trans, name, amount, headers));
            var o := ProcessTrans(v, l, trans, name, amount);
      && (o.Blocked? ==> r == Waiting)
      && (o.Done? ==> r == Replied(o.ledger, SendResponse(o.msg)))
  {
    TargetOfRequest(trans, name, amount, headers);
    ParseFormatted(trans, name, amount);
  }

  /** A request of one word followed only by blank lines (say "GET\r\n\r\n") never gets past the header loop. */
  lemma {:induction false} OneWordHangs(v: Variant, l: Ledger, verb: string, blank: string)
    requires IsWord(verb)
    requires forall i :: 0 <= i < |blank| ==> IsSpace(blank[i])
    ensures ClientThread(v, l, verb + blank) == Hangs
  {
    ReadWordOf(verb, blank);
    ReadWordSkips(blank, []);
    assert blank + [] == blank;
  }

  /** A request line of one word takes its target from the first word of the next line. */
  lemma {:induction false} TargetFromNextLine(verb: string, rest: string)
    requires IsWord(verb)
    ensures RequestTarget(verb + ("\r\n" + rest)) == ReadWord(rest)
  {
    ReadWordOf(verb, "\r\n" + rest);
    ReadWordSkips("\r\n", rest);
  }
}
