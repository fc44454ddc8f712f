/**
 The reply `sendResponse` writes around a transaction result: a fixed status
 line and headers, each ended by CRLF, a blank line, and the message. Its
 partner is a reader in the style of `std::getline`, which recovers the
 lines, the announced Content-Length and the message.
 */
module HttpFraming {
  import opened Text

  /** Each line followed by CRLF. */
  function CrlfLines(ls: seq<string>): string
    decreases |ls|
  {
    if ls == [] then [] else ls[0] + ("\r\n" + CrlfLines(ls[1..]))
  }

  const ContentLengthPrefix := "Content-Length: "

  /** The status line and headers of every reply, for a message of `len` bytes. */
  function HeadLines(len: nat): seq<string> {
    ["HTTP/1.1 200 OK", "Server: StockServer", ContentLengthPrefix + NatToString(len), "Connection: Close", "Content-Type: text/plain"]
  }

  /** `sendResponse(os, msg)`: the head, a blank line, then the message itself. */
  function SendResponse(msg: string): (r: string)
    ensures "HTTP/1.1 200 OK\r\n" <= r
    ensures |msg| < |r| && r[|r| - |msg|..] == msg
  {
    var ls := HeadLines(|msg|);
    assert CrlfLines(ls) == ls[0] + ("\r\n" + CrlfLines(ls[1..]));
    assert (CrlfLines(ls) + ("\r\n" + msg))[|CrlfLines(ls) + "\r\n"|..] == msg;
    CrlfLines(ls) + ("\r\n" + msg)
  }

  // ---------------------------------------------------------------------
  // The reader.
  // ---------------------------------------------------------------------

  predicate NoNewline(s: string) {
    forall i :: 0 <= i < |s| ==> s[i] != '\n'
  }

  /**
   `std::getline`: the text up to the first newline, and what follows it.
   The last line need not end in a newline; an exhausted stream gives None.
   */
  function GetLine(s: string): (r: Option<(string, string)>)
    ensures r.None? <==> s == []
    ensures r.Some? ==> |r.value.1| < |s|
  {
    if s == [] then None
    else
      match FindChar(s, '\n', 0)
      case None => Some((s, []))
      case Some(i) => Some((s[..i], s[i + 1..]))
  }

  /** A line read holds no newline, and it and the rest make up the stream, less the newline between them. */
  lemma {:induction false} GetLineSplits(s: string)
    ensures var r := GetLine(s);
      && (r.Some? ==> NoNewline(r.value.0))
      && (r.Some? && |r.value.0| < |s| ==> s == r.value.0 + "\n" + r.value.1)
      && (r.Some? && |r.value.0| == |s| ==> r.value.0 == s && r.value.1 == [])
  {
    FindCharFirst(s, '\n', 0);
  }

  /**
   The lines up to the first line that is a lone `\r`, each with its final
   `\r` removed, and what follows; None when the stream ends first.
   */
  function ReadHead(s: string): (r: Option<(seq<string>, string)>)
    ensures r.Some? ==> |r.value.1| < |s|
    decreases |s|
  {
    match GetLine(s)
    case None => None
    case Some((line, rest)) =>
      if line == "\r" then Some(([], rest))
      else
        var text := if |line| > 0 && line[|line| - 1] == '\r' then line[..|line| - 1] else line;
        match ReadHead(rest)
        case None => None
        case Some((ls, body)) => Some(([text] + ls, body))
  }

  /** The value of the first `Content-Length: ` line, when it is a decimal number. */
  function ContentLength(ls: seq<string>): (n: Option<nat>)
    decreases |ls|
  {
    if ls == [] then None
    else if ContentLengthPrefix <= ls[0] && |ls[0]| > |ContentLengthPrefix| && AllDigits(ls[0][|ContentLengthPrefix|..]) then
      Some(ParseDecimal(ls[0][|ContentLengthPrefix|..]))
    else ContentLength(ls[1..])
  }

  datatype Response = Response(status: string, headers: seq<string>, body: string)

  /** A reply read back: the status line, the header lines, and the rest of the stream. */
  function ReadResponse(s: string): (r: Option<Response>)
    ensures r.Some? ==> |r.value.body| < |s|
  {
    match ReadHead(s)
    case Some((ls, body)) => if ls == [] then None else Some(Response(ls[0], ls[1..], body))
    case None => None
  }

  // ---------------------------------------------------------------------
  // Round trip.
  // ---------------------------------------------------------------------

  lemma {:induction false} GetLineOf(a: string, rest: string)
    requires NoNewline(a)
    ensures GetLine(a + "\n" + rest) == Some((a, rest))
  {
    var s := a + "\n" + rest;
    assert s[|a|] == '\n';
    FindCharAt(s, '\n', 0, |a|);
    assert s[..|a|] == a;
    assert s[|a| + 1..] == rest;
  }

  /** Lines without newlines, none of them empty, are read back with the blank line ending them. */
  lemma {:induction false} ReadHeadOf(ls: seq<string>, body: string)
    requires forall k :: 0 <= k < |ls| ==> NoNewline(ls[k]) && ls[k] != []
    ensures ReadHead(CrlfLines(ls) + ("\r\n" + body)) == Some((ls, body))
    decreases |ls|
  {
    if ls == [] {
      assert CrlfLines(ls) + ("\r\n" + body) == "\r" + "\n" + body;
      GetLineOf("\r", body);
    } else {
      var tail := CrlfLines(ls[1..]) + ("\r\n" + body);
      CrlfCons(ls, "\r\n" + body);
      ReadHeadOf(ls[1..], body);
      ReadHeadStep(ls[0], tail, ls[1..], body);
      assert [ls[0]] + ls[1..] == ls;
    }
  }

  lemma {:induction false} CrlfCons(ls: seq<string>, after: string)
    requires ls != []
    ensures CrlfLines(ls) + after == (ls[0] + "\r") + "\n" + (CrlfLines(ls[1..]) + after)
  {
    var l := ls[0];
    var t := CrlfLines(ls[1..]);
    assert CrlfLines(ls) == l + ("\r\n" + t);
    assert (l + ("\r\n" + t)) + after == (l + "\r") + "\n" + (t + after);
  }

  /** A line that is not empty, its CR, a newline, then the rest of the head. */
  lemma {:induction false} ReadHeadStep(l: string, tail: string, ls: seq<string>, body: string)
    requires NoNewline(l) && l != []
    requires ReadHead(tail) == Some((ls, body))
    ensures ReadHead((l + "\r") + "\n" + tail) == Some(([l] + ls, body))
  {
    assert NoNewline(l + "\r");
    GetLineOf(l + "\r", tail);
    assert (l + "\r") != "\r" by {
      assert |l + "\r"| > 1;
    }
    assert (l + "\r")[..|l + "\r"| - 1] == l;
  }

  lemma {:induction false} HeadLinesPlain(len: nat)
    ensures forall k :: 0 <= k < |HeadLines(len)| ==> NoNewline(HeadLines(len)[k]) && HeadLines(len)[k] != []
  {
    var num := NatToString(len);
    forall i | 0 <= i < |num| ensures num[i] != '\n' {
      assert IsDigit(num[i]);
    }
    assert NoNewline(ContentLengthPrefix + num);
  }

  /** The announced length is the one on the third line. */
  lemma {:induction false} ContentLengthOfHead(len: nat)
    ensures ContentLength(HeadLines(len)[1..]) == Some(len)
  {
    var ls := HeadLines(len);
    var num := NatToString(len);
    var line := ContentLengthPrefix + num;
    assert !(ContentLengthPrefix <= ls[1]) by {
      assert ls[1][0] != ContentLengthPrefix[0];
    }
    assert ls[1..][1..][0] == line;
    assert line[|ContentLengthPrefix|..] == num;
    ParseNatToString(len);
  }

  /**
   Reading a reply gives back the status "HTTP/1.1 200 OK", a Content-Length
   that is the message's length, and the message itself, whatever bytes the
   message holds.
   */
  lemma {:induction false} ResponseRoundTrip(msg: string)
    ensures var r := ReadResponse(SendResponse(msg));
      && r.Some?
      && r.value.status == "HTTP/1.1 200 OK"
      && ContentLength(r.value.headers) == Some(|msg|)
      && r.value.body == msg
  {
    HeadLinesPlain(|msg|);
    ReadHeadOf(HeadLines(|msg|), msg);
    ContentLengthOfHead(|msg|);
  }
}
