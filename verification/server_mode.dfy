/**
 How the homework 6 `main` reads its command line: an argument made only of
 the digits 0-9 (the empty string included) is a port number for
 `std::stoi`; anything else names a file of requests. Without an argument
 the port is "0".
 */
module ServerMode {
  import opened Text

  const INT_MAX: nat := 0x7FFF_FFFF

  datatype Mode =
    | Server(port: nat)       // runServer(std::stoi(arg))
    | InputFile(path: string) // serveClient on the opened file
    | Throws(reason: string)  // std::stoi threw; nothing catches it

  /** `std::stoi` on a string of digits only. */
  function StoiDigits(s: string): (r: Result<nat>)
    requires AllDigits(s)
    ensures r.Ok? ==> r.value <= INT_MAX
    ensures r.Err? <==> s == [] || ParseDecimal(s) > INT_MAX
  {
    if s == [] then Err("invalid_argument")
    else if ParseDecimal(s) > INT_MAX then Err("out_of_range")
    else Ok(ParseDecimal(s))
  }

  /** A leading zero does not change the value `std::stoi` reads. */
  lemma {:induction false} ParseLeadingZero(s: string)
    requires AllDigits(s)
    ensures AllDigits("0" + s) && ParseDecimal("0" + s) == ParseDecimal(s)
    decreases |s|
  {
    var t := "0" + s;
    if s == [] {
      assert t[..0] == [];
    } else {
      assert t[..|t| - 1] == "0" + s[..|s| - 1];
      ParseLeadingZero(s[..|s| - 1]);
    }
  }

  /** Every number printed in decimal reads back as itself, or is out of range above INT_MAX. */
  lemma {:induction false} StoiNumeral(n: nat)
    ensures n <= INT_MAX ==> StoiDigits(NatToString(n)) == Ok(n)
    ensures n > INT_MAX ==> StoiDigits(NatToString(n)) == Err("out_of_range")
  {
    ParseNatToString(n);
  }

  /** A value read from a numeral without leading zeros prints back as that numeral. */
  lemma {:induction false} StoiCanonical(s: string)
    requires AllDigits(s)
    requires s != [] && (s[0] == '0' ==> s == "0")
    requires StoiDigits(s).Ok?
    ensures NatToString(StoiDigits(s).value) == s
  {
    NatToStringParse(s);
  }

  /** Leading zeros are skipped: "0" followed by digits reads as those digits. */
  lemma {:induction false} StoiLeadingZero(s: string)
    requires AllDigits(s) && s != []
    ensures StoiDigits("0" + s) == StoiDigits(s)
  {
    ParseLeadingZero(s);
  }

  /** `main(argc, argv)`, with `args` the arguments after the program name. */
  function SelectMode(args: seq<string>): (m: Mode)
    ensures m.InputFile? ==> |args| > 0 && m.path == args[0]
    ensures m.Server? ==> if |args| == 0 then m.port == 0
                          else AllDigits(args[0]) && ParseDecimal(args[0]) == m.port
    ensures m.Throws? ==> |args| > 0 && AllDigits(args[0])
  {
    var arg := if |args| > 0 then args[0] else "0";
    if AllDigits(arg) then
      match StoiDigits(arg)
      case Ok(port) => Server(port)
      case Err(e) => Throws(e)
    else InputFile(arg)
  }

  /** With no argument the server listens on port 0 (any free port). */
  lemma {:induction false} NoArgumentIsPortZero()
    ensures SelectMode([]) == Server(0)
  {
    assert ParseDecimal("0") == 0;
  }

  /** The program serves a file exactly when the first argument has a character other than a digit. */
  lemma {:induction false} FileModeExactly(args: seq<string>)
    ensures SelectMode(args).InputFile? <==> |args| > 0 && exists i :: 0 <= i < |args[0]| && !IsDigit(args[0][i])
  {
  }

  /** Every port from 0 to INT_MAX, printed in decimal, selects that port; extra arguments are ignored. */
  lemma {:induction false} PortArgument(port: nat, rest: seq<string>)
    requires port <= INT_MAX
    ensures SelectMode([NatToString(port)] + rest) == Server(port)
  {
    ParseNatToString(port);
  }

  /** Leading zeros are allowed: "0080" is port 80. */
  lemma {:induction false} LeadingZeros()
    ensures SelectMode(["0080"]) == Server(80)
  {
    assert "0080"[..3] == "008" && "008"[..2] == "00" && "00"[..1] == "0" && "0"[..0] == "";
    assert ParseDecimal("00") == 0;
    assert ParseDecimal("008") == 8;
    assert ParseDecimal("0080") == 80;
  }

  /** An empty argument is all digits, so it reaches `std::stoi`, which throws. */
  lemma {:induction false} EmptyArgumentThrows(rest: seq<string>)
    ensures SelectMode([""] + rest) == Throws("invalid_argument")
  {
  }

  /** A port above INT_MAX is out of range for `std::stoi`. */
  lemma {:induction false} PortTooLarge(port: nat, rest: seq<string>)
    requires port > INT_MAX
    ensures SelectMode([NatToString(port)] + rest) == Throws("out_of_range")
  {
    ParseNatToString(port);
  }

  /** A signed number is not all digits, so it is taken for a file name. */
  lemma {:induction false} SignedPortIsFileName(port: nat)
    ensures SelectMode(["-" + NatToString(port)]) == InputFile("-" + NatToString(port))
  {
    assert !IsDigit(("-" + NatToString(port))[0]);
  }
}
