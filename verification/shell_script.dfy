/**
 `processCmds` and `processScript` of homework 5: the line-by-line command
 interpreter. Forking a child, waiting for it and reading a nested script
 are effects; the model records them as a sequence of events:

 - `Run(id, args)`: `runCmds` starts child number `id` with these words;
 - `Wait(id)`: `child.wait()` and the "Exit code" line for that child;
 - `Script(source, parallel)`: `processScript` runs a nested script, whose
   contents are read from a file or a URL and are not part of the model;
 - `Undefined`: `argList[0]` or `argList[1]` indexed past the end of the
   vector, which is undefined behaviour; nothing after it is modelled;
 - `Terminated`: a script URL that `breakDownURL` cannot split throws
   `std::out_of_range`; nothing catches it, so the shell ends there and no
   pending child is waited for.
 */
module ShellScript {
  import opened Text
  import opened QuotedWords
  import opened UrlParts

  /** Where `processScript` reads a script from. */
  datatype Source = Url(url: string) | File(path: string)

  /** `input.find("http://") == 0`: exactly when the input starts with "http://". */
  function ScriptSource(input: string): (s: Source)
    ensures s.Url? <==> |input| >= 7 && input[..7] == "http://"
    ensures s.Url? ==> s.url == input
    ensures s.File? ==> s.path == input
  {
    if "http://" <= input then Url(input) else File(input)
  }

  /** `processScript(input, ...)` throws before reading anything: `serveClient` cannot split the URL. */
  predicate ScriptThrows(input: string) {
    ScriptSource(input).Url? && BreakDownUrl(input).Err?
  }

  /** What one line read by `getline` asks for. */
  datatype LineKind =
    | Exit
    | Skip
    | Command(args: seq<string>)
    | RunScript(input: string, parallel: bool)
    | BadIndex

  function ClassifyLine(line: string): (k: LineKind)
    ensures k.Command? ==> |k.args| > 0 && k.args[0] != "SERIAL" && k.args[0] != "PARALLEL"
    ensures k.Command? ==> k.args == Split(line)
    ensures k.RunScript? ==> var ws := Split(line);
      |ws| >= 2 && k.input == ws[1] && k.parallel == (ws[0] == "PARALLEL")
    ensures k.Skip? <==> line == [] || line[0] == '#'
    ensures k.Exit? <==> line == "exit"
    ensures k.BadIndex? <==> var ws := Split(line);
      line != "exit" && line != [] && line[0] != '#'
      && (ws == [] || ((ws[0] == "SERIAL" || ws[0] == "PARALLEL") && |ws| < 2))
  {
    if line == "exit" then Exit
    else if line == [] || line[0] == '#' then Skip
    else
      var args := Split(line);
      if args == [] then BadIndex
      else if args[0] == "SERIAL" || args[0] == "PARALLEL" then
        if |args| < 2 then BadIndex else RunScript(args[1], args[0] == "PARALLEL")
      else Command(args)
  }

  datatype Event =
    | Run(id: nat, args: seq<string>)
    | Wait(id: nat)
    | Script(source: Source, parallel: bool)
    | Undefined
    | Terminated

  /** The events after which nothing happens. */
  predicate Final(e: Event) {
    e.Undefined? || e.Terminated?
  }

  /** A `Wait` for each child in the list, in order. */
  function WaitAll(ids: seq<nat>): (ev: seq<Event>)
    ensures |ev| == |ids|
    ensures forall i :: 0 <= i < |ids| ==> ev[i] == Wait(ids[i])
    decreases |ids|
  {
    if ids == [] then [] else [Wait(ids[0])] + WaitAll(ids[1..])
  }

  /**
   The loop of `processCmds` over the remaining lines, each already classified: `next` numbers the
   next child and `pending` lists the children started in parallel mode and
   not yet waited for (`childList`).
   */
  function Classify(lines: seq<string>): (ks: seq<LineKind>)
    ensures |ks| == |lines|
    ensures forall i :: 0 <= i < |lines| ==> ks[i] == ClassifyLine(lines[i])
    decreases |lines|
  {
    if lines == [] then [] else [ClassifyLine(lines[0])] + Classify(lines[1..])
  }

  function Process(kinds: seq<LineKind>, parallel: bool, next: nat, pending: seq<nat>): (ev: seq<Event>)
    ensures forall i :: 0 <= i < |ev| && Final(ev[i]) ==> i == |ev| - 1
    ensures ev == [] ==> pending == []
    decreases |kinds|
  {
    if kinds == [] then WaitAll(pending)
    else
      match kinds[0]
      case Exit => WaitAll(pending)
      case Skip => Process(kinds[1..], parallel, next, pending)
      case BadIndex => [Undefined]
      case RunScript(input, par) =>
        if ScriptThrows(input) then [Terminated]
        else [Script(ScriptSource(input), par)] + Process(kinds[1..], parallel, next, pending)
      case Command(args) =>
        if parallel then [Run(next, args)] + Process(kinds[1..], parallel, next + 1, pending + [next])
        else [Run(next, args), Wait(next)] + Process(kinds[1..], parallel, next + 1, pending)
  }

  /** `processCmds(is, prompt, parallel)` on the lines of `is`. */
  function ProcessCmds(lines: seq<string>, parallel: bool): (ev: seq<Event>)
    ensures forall i :: 0 <= i < |ev| && Final(ev[i]) ==> i == |ev| - 1
    ensures lines == [] ==> ev == []
  {
    Process(Classify(lines), parallel, 0, [])
  }

  // ---------------------------------------------------------------------
  // Children started and waited for.
  // ---------------------------------------------------------------------

  function RunIds(ev: seq<Event>): seq<nat>
    decreases |ev|
  {
    if ev == [] then [] else (if ev[0].Run? then [ev[0].id] else []) + RunIds(ev[1..])
  }

  function WaitIds(ev: seq<Event>): seq<nat>
    decreases |ev|
  {
    if ev == [] then [] else (if ev[0].Wait? then [ev[0].id] else []) + WaitIds(ev[1..])
  }


  lemma {:induction false} RunIdsConcat(a: seq<Event>, b: seq<Event>)
    ensures RunIds(a + b) == RunIds(a) + RunIds(b)
    decreases |a|
  {
    if a == [] {
      assert a + b == b;
    } else {
      var x := if a[0].Run? then [a[0].id] else [];
      assert (a + b)[0] == a[0];
      assert (a + b)[1..] == a[1..] + b;
      RunIdsConcat(a[1..], b);
      assert RunIds(a + b) == x + (RunIds(a[1..]) + RunIds(b));
      AppendAssoc(x, RunIds(a[1..]), RunIds(b));
    }
  }

  lemma {:induction false} WaitIdsConcat(a: seq<Event>, b: seq<Event>)
    ensures WaitIds(a + b) == WaitIds(a) + WaitIds(b)
    decreases |a|
  {
    if a == [] {
      assert a + b == b;
    } else {
      var x := if a[0].Wait? then [a[0].id] else [];
      assert (a + b)[0] == a[0];
      assert (a + b)[1..] == a[1..] + b;
      WaitIdsConcat(a[1..], b);
      assert WaitIds(a + b) == x + (WaitIds(a[1..]) + WaitIds(b));
      AppendAssoc(x, WaitIds(a[1..]), WaitIds(b));
    }
  }

  lemma {:induction false} WaitAllIds(ids: seq<nat>)
    ensures WaitIds(WaitAll(ids)) == ids && RunIds(WaitAll(ids)) == []
    decreases |ids|
  {
    if ids != [] {
      WaitAllIds(ids[1..]);
      WaitIdsConcat([Wait(ids[0])], WaitAll(ids[1..]));
      RunIdsConcat([Wait(ids[0])], WaitAll(ids[1..]));
      assert [ids[0]] + ids[1..] == ids;
    }
  }

  /** One step of the loop keeps the waits in line with the runs. */
  lemma {:induction false} IdsStep(head: seq<Event>, rest: seq<Event>, pending: seq<nat>, pending2: seq<nat>)
    requires WaitIds(rest) == pending2 + RunIds(rest)
    requires WaitIds(head) + pending2 == pending + RunIds(head)
    ensures WaitIds(head + rest) == pending + RunIds(head + rest)
  {
    RunIdsConcat(head, rest);
    WaitIdsConcat(head, rest);
    calc {
      WaitIds(head + rest);
      WaitIds(head) + (pending2 + RunIds(rest));
      (WaitIds(head) + pending2) + RunIds(rest);
      (pending + RunIds(head)) + RunIds(rest);
      pending + RunIds(head + rest);
    }
  }

  /**
   Unless a line hits undefined behaviour or ends the shell, every child is
   waited for exactly once, in the order the children were started, after
   the ones already pending.
   */
  lemma {:induction false} WaitsFollowRuns(kinds: seq<LineKind>, parallel: bool, next: nat, pending: seq<nat>)
    requires !parallel ==> pending == []
    requires Undefined !in Process(kinds, parallel, next, pending)
    requires Terminated !in Process(kinds, parallel, next, pending)
    ensures WaitIds(Process(kinds, parallel, next, pending)) == pending + RunIds(Process(kinds, parallel, next, pending))
    decreases |kinds|
  {
    var ev := Process(kinds, parallel, next, pending);
    if kinds == [] || kinds[0].Exit? {
      WaitAllIds(pending);
    } else {
      var k := kinds[0];
      if k.Skip? {
        WaitsFollowRuns(kinds[1..], parallel, next, pending);
      } else if k.RunScript? && !ScriptThrows(k.input) {
        var head := [Script(ScriptSource(k.input), k.parallel)];
        var rest := Process(kinds[1..], parallel, next, pending);
        assert ev == head + rest;
        assert Undefined !in rest && Terminated !in rest;
        WaitsFollowRuns(kinds[1..], parallel, next, pending);
        IdsStep(head, rest, pending, pending);
      } else if k.Command? && parallel {
        var head := [Run(next, k.args)];
        var rest := Process(kinds[1..], parallel, next + 1, pending + [next]);
        assert ev == head + rest;
        assert Undefined !in rest && Terminated !in rest;
        WaitsFollowRuns(kinds[1..], parallel, next + 1, pending + [next]);
        IdsStep(head, rest, pending, pending + [next]);
      } else if k.Command? {
        var head := [Run(next, k.args), Wait(next)];
        var rest := Process(kinds[1..], parallel, next + 1, pending);
        assert ev == head + rest;
        assert Undefined !in rest && Terminated !in rest;
        WaitsFollowRuns(kinds[1..], parallel, next + 1, pending);
        var tail: seq<Event> := [Wait(next)];
        assert head[1..] == tail && tail[1..] == [];
        assert RunIds(tail) == [] && WaitIds(tail) == [next];
        assert RunIds(head) == [next] + RunIds(tail);
        assert WaitIds(head) == [] + WaitIds(tail);
        IdsStep(head, rest, pending, pending);
      }
    }
  }

  /** Each `Run` is directly followed by the `Wait` for the same child. */
  predicate WaitsAtOnce(ev: seq<Event>) {
    forall i :: 0 <= i < |ev| && ev[i].Run? ==> i + 1 < |ev| && ev[i + 1] == Wait(ev[i].id)
  }

  lemma {:induction false} WaitsAtOnceConcat(a: seq<Event>, b: seq<Event>)
    requires WaitsAtOnce(a) && WaitsAtOnce(b)
    ensures WaitsAtOnce(a + b)
  {
    var ab := a + b;
    forall i | 0 <= i < |ab| && ab[i].Run? ensures i + 1 < |ab| && ab[i + 1] == Wait(ab[i].id) {
      if i < |a| {
        assert ab[i] == a[i] && ab[i + 1] == a[i + 1];
      } else {
        assert ab[i] == b[i - |a|] && ab[i + 1] == b[i - |a| + 1];
      }
    }
  }

  /** Once a `Wait` occurs, only `Wait`s follow. */
  predicate WaitsLast(ev: seq<Event>) {
    forall i, j :: 0 <= i < j < |ev| && ev[i].Wait? ==> ev[j].Wait?
  }

  lemma {:induction false} WaitsLastCons(e: Event, b: seq<Event>)
    requires !e.Wait? && WaitsLast(b)
    ensures WaitsLast([e] + b)
  {
    var eb := [e] + b;
    forall i, j | 0 <= i < j < |eb| && eb[i].Wait? ensures eb[j].Wait? {
      assert i > 0;
      assert eb[i] == b[i - 1] && eb[j] == b[j - 1];
    }
  }

  /** In serial mode each child is waited for right after it starts, before the next line. */
  lemma {:induction false} SerialWaitsAtOnce(kinds: seq<LineKind>, next: nat)
    ensures WaitsAtOnce(Process(kinds, false, next, []))
    decreases |kinds|
  {
    var ev := Process(kinds, false, next, []);
    if kinds != [] {
      var k := kinds[0];
      if k.Exit? || k.BadIndex? {
        assert ev == [] || ev == [Undefined];
      } else if k.Skip? {
        assert ev == Process(kinds[1..], false, next, []);
        SerialWaitsAtOnce(kinds[1..], next);
      } else if k.RunScript? {
        var head := [Script(ScriptSource(k.input), k.parallel)];
        SerialWaitsAtOnce(kinds[1..], next);
        WaitsAtOnceConcat(head, Process(kinds[1..], false, next, []));
      } else if k.Command? {
        var head := [Run(next, k.args), Wait(next)];
        SerialWaitsAtOnce(kinds[1..], next + 1);
        WaitsAtOnceConcat(head, Process(kinds[1..], false, next + 1, []));
      }
    }
  }

  /** In parallel mode nothing is waited for until every line has been read. */
  lemma {:induction false} ParallelWaitsLast(kinds: seq<LineKind>, next: nat, pending: seq<nat>)
    ensures WaitsLast(Process(kinds, true, next, pending))
    decreases |kinds|
  {
    var ev := Process(kinds, true, next, pending);
    if kinds == [] {
      assert WaitsLast(WaitAll(pending));
    } else {
      var k := kinds[0];
      if k.Exit? {
        assert WaitsLast(WaitAll(pending));
      } else if k.Skip? {
        assert ev == Process(kinds[1..], true, next, pending);
        ParallelWaitsLast(kinds[1..], next, pending);
      } else if k.RunScript? {
        ParallelWaitsLast(kinds[1..], next, pending);
        WaitsLastCons(Script(ScriptSource(k.input), k.parallel), Process(kinds[1..], true, next, pending));
      } else if k.Command? {
        ParallelWaitsLast(kinds[1..], next + 1, pending + [next]);
        WaitsLastCons(Run(next, k.args), Process(kinds[1..], true, next + 1, pending + [next]));
      }
    }
  }

  // ---------------------------------------------------------------------
  // Which lines matter.
  // ---------------------------------------------------------------------

  /** Nothing after an `Exit` is looked at. */
  lemma {:induction false} IgnoredAfterExit(pre: seq<LineKind>, a: seq<LineKind>, b: seq<LineKind>, parallel: bool, next: nat, pending: seq<nat>)
    ensures Process(pre + [Exit] + a, parallel, next, pending) == Process(pre + [Exit] + b, parallel, next, pending)
    decreases |pre|
  {
    var la := pre + [Exit] + a;
    var lb := pre + [Exit] + b;
    if pre == [] {
      assert la[0] == Exit && lb[0] == Exit;
    } else {
      assert la[0] == pre[0] && lb[0] == pre[0];
      assert la[1..] == pre[1..] + [Exit] + a;
      assert lb[1..] == pre[1..] + [Exit] + b;
      var k := pre[0];
      if k.Command? {
        if parallel {
          IgnoredAfterExit(pre[1..], a, b, parallel, next + 1, pending + [next]);
        } else {
          IgnoredAfterExit(pre[1..], a, b, parallel, next + 1, pending);
        }
      } else {
        IgnoredAfterExit(pre[1..], a, b, parallel, next, pending);
      }
    }
  }

  /** A skipped line has no effect. */
  lemma {:induction false} SkipIgnored(pre: seq<LineKind>, post: seq<LineKind>, parallel: bool, next: nat, pending: seq<nat>)
    ensures Process(pre + [Skip] + post, parallel, next, pending) == Process(pre + post, parallel, next, pending)
    decreases |pre|
  {
    var l1 := pre + [Skip] + post;
    var l2 := pre + post;
    if pre == [] {
      assert l1[0] == Skip && l1[1..] == post && l2 == post;
    } else {
      assert l1[0] == pre[0] && l2[0] == pre[0];
      assert l1[1..] == pre[1..] + [Skip] + post;
      assert l2[1..] == pre[1..] + post;
      var k := pre[0];
      if k.Command? {
        if parallel {
          SkipIgnored(pre[1..], post, parallel, next + 1, pending + [next]);
        } else {
          SkipIgnored(pre[1..], post, parallel, next + 1, pending);
        }
      } else if !k.Exit? && !k.BadIndex? {
        SkipIgnored(pre[1..], post, parallel, next, pending);
      }
    }
  }

  lemma {:induction false} ClassifyConcat(a: seq<string>, b: seq<string>)
    ensures Classify(a + b) == Classify(a) + Classify(b)
  {
    var l, k := a + b, Classify(a) + Classify(b);
    forall i | 0 <= i < |l| ensures Classify(l)[i] == k[i] {
      if i < |a| {
        assert l[i] == a[i] && k[i] == Classify(a)[i];
      } else {
        assert l[i] == b[i - |a|] && k[i] == Classify(b)[i - |a|];
      }
    }
  }

  /** Nothing after an "exit" line is read: whatever follows, the events are the same. */
  lemma {:induction false} ExitEndsScript(pre: seq<string>, a: seq<string>, b: seq<string>, parallel: bool)
    ensures ProcessCmds(pre + ["exit"] + a, parallel) == ProcessCmds(pre + ["exit"] + b, parallel)
  {
    ClassifyConcat(pre + ["exit"], a);
    ClassifyConcat(pre + ["exit"], b);
    ClassifyConcat(pre, ["exit"]);
    assert Classify(["exit"]) == [Exit];
    IgnoredAfterExit(Classify(pre), Classify(a), Classify(b), parallel, 0, []);
  }

  /** A blank line or a '#' comment anywhere has no effect. */
  lemma {:induction false} CommentsIgnored(pre: seq<string>, c: string, post: seq<string>, parallel: bool)
    requires c == [] || c[0] == '#'
    ensures ProcessCmds(pre + [c] + post, parallel) == ProcessCmds(pre + post, parallel)
  {
    ClassifyConcat(pre + [c], post);
    ClassifyConcat(pre, [c]);
    ClassifyConcat(pre, post);
    assert Classify([c]) == [Skip];
    SkipIgnored(Classify(pre), Classify(post), parallel, 0, []);
  }

  /** Unless undefined behaviour or an uncaught exception intervenes, every child started is waited for once, in start order. */
  lemma {:induction false} EveryChildWaited(lines: seq<string>, parallel: bool)
    requires Undefined !in ProcessCmds(lines, parallel)
    requires Terminated !in ProcessCmds(lines, parallel)
    ensures WaitIds(ProcessCmds(lines, parallel)) == RunIds(ProcessCmds(lines, parallel))
  {
    WaitsFollowRuns(Classify(lines), parallel, 0, []);
  }

  // ---------------------------------------------------------------------
  // Single lines.
  // ---------------------------------------------------------------------

  /** Only the exact line "exit" stops the loop; "exit" with blanks after it runs a command named exit. */
  lemma {:induction false} ExitMustBeExact(blanks: string)
    requires blanks != [] && forall i :: 0 <= i < |blanks| ==> IsSpace(blanks[i])
    ensures ClassifyLine("exit" + blanks) == Command(["exit"])
  {
    var line := "exit" + blanks;
    assert IsWord("exit") && "exit"[0] != '"';
    SplitWordHead("exit", blanks);
    BlankLine(blanks);
    assert [] + ["exit"] == ["exit"];
    assert line[0] == 'e' && |line| > 4;
  }

  /** A line of blanks (not empty) indexes an empty word list. */
  lemma {:induction false} BlankLineIsUndefined(line: string)
    requires line != [] && forall i :: 0 <= i < |line| ==> IsSpace(line[i])
    ensures ClassifyLine(line) == BadIndex
  {
    BlankLine(line);
    assert line[0] != '#' by {
      assert IsSpace(line[0]);
    }
    assert line != "exit" by {
      assert IsSpace(line[0]);
    }
  }

  /** A keyword and a quoted name split into exactly those two words. */
  lemma {:induction false} KeywordAndQuoted(keyword: string, name: string)
    requires IsWord(keyword) && keyword[0] != '"'
    ensures Split(keyword + (" " + Quote(name))) == [keyword] + [name]
  {
    SplitQuotedOnly(name);
    SplitWordThenSpace(keyword, Quote(name));
  }

  /** A line whose first word is SERIAL or PARALLEL and which has a second word runs that script. */
  lemma {:induction false} ScriptLine(line: string)
    requires line != "exit" && line != [] && line[0] != '#'
    requires |Split(line)| >= 2 && (Split(line)[0] == "SERIAL" || Split(line)[0] == "PARALLEL")
    ensures ClassifyLine(line) == RunScript(Split(line)[1], Split(line)[0] == "PARALLEL")
  {
  }

  /** `SERIAL "a file name"` runs the script of that name, quotes removed. */
  lemma {:induction false} QuotedScriptName(keyword: string, name: string)
    requires keyword == "SERIAL" || keyword == "PARALLEL"
    ensures ClassifyLine(keyword + (" " + Quote(name))) == RunScript(name, keyword == "PARALLEL")
  {
    var line := keyword + (" " + Quote(name));
    assert IsWord(keyword) && keyword[0] != '"' && keyword[0] != '#';
    KeywordAndQuoted(keyword, name);
    assert line[0] == keyword[0];
    assert |line| > 4;
    ScriptLine(line);
  }

  /** SERIAL or PARALLEL with nothing but blanks after it indexes past the end of the word list. */
  lemma {:induction false} ScriptWithoutName(keyword: string, blanks: string)
    requires keyword == "SERIAL" || keyword == "PARALLEL"
    requires forall i :: 0 <= i < |blanks| ==> IsSpace(blanks[i])
    ensures ClassifyLine(keyword + blanks) == BadIndex
  {
    var line := keyword + blanks;
    assert IsWord(keyword) && keyword[0] != '"';
    LoneWord(keyword, blanks);
    assert |line| >= |keyword| >= 6;
    assert line[0] == keyword[0];
    assert line[0] == 'S' || line[0] == 'P';
    KeywordAlone(line);
  }

  /** A word followed only by blanks is the only word of the line. */
  lemma {:induction false} LoneWord(w: string, blanks: string)
    requires IsWord(w) && w[0] != '"'
    requires forall i :: 0 <= i < |blanks| ==> IsSpace(blanks[i])
    ensures Split(w + blanks) == [w]
  {
    if blanks == [] {
      assert w + blanks == w + [];
      SplitWordHead(w, []);
      assert Split([]) == [];
    } else {
      SplitWordHead(w, blanks);
      BlankLine(blanks);
    }
    assert [w] + [] == [w];
  }

  /** A line whose only word is SERIAL or PARALLEL. */
  lemma {:induction false} KeywordAlone(line: string)
    requires line != "exit" && line != [] && line[0] != '#'
    requires |Split(line)| == 1 && (Split(line)[0] == "SERIAL" || Split(line)[0] == "PARALLEL")
    ensures ClassifyLine(line) == BadIndex
  {
  }

  /** A URL script is fetched over HTTP; anything else, even "https://...", is opened as a file. */
  lemma {:induction false} SourcesByPrefix(rest: string)
    ensures ScriptSource("http://" + rest) == Url("http://" + rest)
    ensures ScriptSource("https://" + rest) == File("https://" + rest)
  {
    assert ("https://" + rest)[4] == 's';
  }

  /** "http://" and a host with no path: `breakDownURL` finds no '/' after the host start and throws. */
  lemma {:induction false} HostOnlyThrows(host: string)
    requires '/' !in host
    ensures ScriptThrows("http://" + host)
  {
    SourcesByPrefix(host);
    assert '/' !in "http";
    NoPathThrows("http", host);
    assert "http" + "://" + host == "http://" + host;
  }

  lemma {:induction false} HttpUrlIsWord(host: string)
    requires IsWord(host)
    ensures IsWord("http://" + host) && ("http://" + host)[0] != '"'
  {
    var url := "http://" + host;
    forall i | 0 <= i < |url| ensures !IsSpace(url[i]) {
      if i >= 7 {
        assert url[i] == host[i - 7];
      }
    }
  }

  /** A keyword followed by one word runs the script that word names. */
  lemma {:induction false} KeywordAndWord(keyword: string, w: string)
    requires keyword == "SERIAL" || keyword == "PARALLEL"
    requires IsWord(w) && w[0] != '"'
    ensures ClassifyLine(keyword + (" " + w)) == RunScript(w, keyword == "PARALLEL")
  {
    var line := keyword + (" " + w);
    assert IsWord(keyword) && keyword[0] != '"';
    SplitWordThenSpace(keyword, w);
    LoneWord(w, []);
    assert w + [] == w;
    assert line[0] == keyword[0] && |line| > 4;
    ScriptLine(line);
  }

  /** A SERIAL or PARALLEL line naming "http://" and a host with no path throws, so the shell ends there. */
  lemma {:induction false} UrlWithoutPathEnds(keyword: string, host: string)
    requires keyword == "SERIAL" || keyword == "PARALLEL"
    requires IsWord(host) && '/' !in host
    ensures ClassifyLine(keyword + (" " + ("http://" + host))) == RunScript("http://" + host, keyword == "PARALLEL")
    ensures ScriptThrows("http://" + host)
  {
    HttpUrlIsWord(host);
    KeywordAndWord(keyword, "http://" + host);
    HostOnlyThrows(host);
  }

  /** A child started in parallel mode, then a script that throws: the child is never waited for. */
  lemma {:induction false} AbandonStep(args: seq<string>, input: string, par: bool, ks: seq<LineKind>)
    requires ScriptThrows(input)
    ensures Process([Command(args), RunScript(input, par)] + ks, true, 0, []) == [Run(0, args), Terminated]
  {
    var k := [Command(args), RunScript(input, par)] + ks;
    assert k[0] == Command(args) && k[1..] == [RunScript(input, par)] + ks;
    assert k[1..][0] == RunScript(input, par);
    assert Process(k[1..], true, 1, [0]) == [Terminated];
  }

  /**
   In parallel mode a child started before such a line is never waited for:
   "a", then "SERIAL http://host", gives a start of "a" and the end of the shell.
   */
  lemma {:induction false} PendingChildAbandoned(cmd: string, keyword: string, host: string, rest: seq<string>)
    requires ClassifyLine(cmd).Command?
    requires keyword == "SERIAL" || keyword == "PARALLEL"
    requires IsWord(host) && '/' !in host
    ensures ProcessCmds([cmd, keyword + (" " + ("http://" + host))] + rest, true)
         == [Run(0, ClassifyLine(cmd).args), Terminated]
  {
    var line := keyword + (" " + ("http://" + host));
    UrlWithoutPathEnds(keyword, host);
    ClassifyConcat([cmd, line], rest);
    assert Classify([cmd, line]) == [ClassifyLine(cmd), ClassifyLine(line)];
    AbandonStep(ClassifyLine(cmd).args, "http://" + host, keyword == "PARALLEL", Classify(rest));
  }
}
