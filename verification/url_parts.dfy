/**
 `breakDownURL` of homework 5: split a URL into host, port and path with
 `std::string::find` and `substr`, all positions being `size_t`.

 - With no "//" in the URL, `find` returns npos and npos + 2 wraps to 1, so
   the host starts at the second character.
 - With no '/' after the host start, `substr(npos)` throws `out_of_range`;
   so does `substr` on an empty URL.
 - A ':' found after the path start makes `pathStart - portPos - 1` wrap, so
   the port runs to the end of the URL and the host runs up to the ':'.
 */
module UrlParts {
  import opened Text

  datatype Parts = Parts(host: string, port: string, path: string)

  /** A "//" starts at position `i`. */
  predicate DoubleSlashAt(s: string, i: nat) {
    i + 1 < |s| && s[i] == '/' && s[i + 1] == '/'
  }

  /** `s.find("//", from)`. */
  function FindDoubleSlash(s: string, from: nat): (r: Option<nat>)
    ensures r.Some? ==> from <= r.value && DoubleSlashAt(s, r.value)
    ensures r.Some? ==> forall i :: from <= i < r.value ==> !DoubleSlashAt(s, i)
    ensures r.None? ==> forall i :: from <= i ==> !DoubleSlashAt(s, i)
    decreases |s| - from
  {
    if from + 1 >= |s| then None
    else if DoubleSlashAt(s, from) then Some(from)
    else FindDoubleSlash(s, from + 1)
  }

  lemma {:induction false} FindDoubleSlashAt(s: string, at: nat)
    requires DoubleSlashAt(s, at)
    requires forall i :: 0 <= i < at ==> !DoubleSlashAt(s, i)
    ensures FindDoubleSlash(s, 0) == Some(at)
  {
  }

  /** Where the host starts: two past the first "//", or 1 when there is none (npos + 2). */
  function HostStart(url: string): nat {
    match FindDoubleSlash(url, 0)
    case Some(i) => i + 2
    case None => 1
  }

  /** `breakDownURL(url)`; Err where `substr` throws `std::out_of_range`. */
  function BreakDownUrl(url: string): (r: Result<Parts>)
    ensures url == [] ==> r.Err?
    ensures r.Ok? ==> |r.value.path| > 0 && r.value.path[0] == '/'
    ensures r.Ok? ==> HostStart(url) + |r.value.path| <= |url| && r.value.path == url[|url| - |r.value.path|..]
  {
    var hostStart := HostStart(url);
    if hostStart > |url| then Err("out_of_range")
    else
      match FindChar(url, '/', hostStart)
      case None => Err("out_of_range")
      case Some(pathStart) =>
        var portPos := FindChar(url, ':', hostStart);
        var hostEnd := if portPos.Some? then portPos.value else pathStart;
        var port :=
          if portPos.None? then "80"
          else if portPos.value < pathStart then url[portPos.value + 1..pathStart]
          else url[portPos.value + 1..];
        Ok(Parts(url[hostStart..hostEnd], port, url[pathStart..]))
  }

  /**
   `breakDownURL` fails exactly on an empty URL or when no '/' follows the
   host start; otherwise the path is the URL's tail from the first such '/',
   and the port is "80" when no ':' follows the host start.
   */
  lemma {:induction false} BreakDownShape(url: string)
    ensures var r := BreakDownUrl(url);
      && (r.Err? <==> url == [] || FindChar(url, '/', HostStart(url)).None?)
      && (r.Ok? ==> |r.value.path| > 0 && r.value.path[0] == '/')
      && (r.Ok? ==> HostStart(url) + |r.value.path| <= |url| && r.value.path == url[|url| - |r.value.path|..])
      && (r.Ok? ==> forall i :: HostStart(url) <= i < |url| - |r.value.path| ==> url[i] != '/')
      && (r.Ok? ==> ((forall i :: HostStart(url) <= i < |url| ==> url[i] != ':') ==> r.value.port == "80"))
  {
    FindCharFirst(url, '/', HostStart(url));
    if forall i :: HostStart(url) <= i < |url| ==> url[i] != ':' {
      FindCharAbsent(url, ':', HostStart(url));
    }
  }

  /** The pieces cut when a ':' comes before the path. */
  lemma {:induction false} BreakDownPorted(url: string, h: nat, colon: nat, slash: nat, host: string, port: string, path: string)
    requires HostStart(url) == h <= colon < slash
    requires FindChar(url, '/', h) == Some(slash) && FindChar(url, ':', h) == Some(colon)
    requires url[h..colon] == host && url[colon + 1..slash] == port && url[slash..] == path
    ensures BreakDownUrl(url) == Ok(Parts(host, port, path))
  {
  }

  /** The pieces cut when no ':' follows the host start. */
  lemma {:induction false} BreakDownDefault(url: string, h: nat, slash: nat, host: string, path: string)
    requires HostStart(url) == h <= slash
    requires FindChar(url, '/', h) == Some(slash) && FindChar(url, ':', h).None?
    requires url[h..slash] == host && url[slash..] == path
    ensures BreakDownUrl(url) == Ok(Parts(host, "80", path))
  {
  }

  /** The pieces cut when the first ':' is inside the path. */
  lemma {:induction false} BreakDownLateColon(url: string, h: nat, slash: nat, colon: nat, host: string, port: string, path: string)
    requires HostStart(url) == h <= slash < colon
    requires FindChar(url, '/', h) == Some(slash) && FindChar(url, ':', h) == Some(colon)
    requires url[h..colon] == host && url[colon + 1..] == port && url[slash..] == path
    ensures BreakDownUrl(url) == Ok(Parts(host, port, path))
  {
  }

  // ---------------------------------------------------------------------
  // Putting a URL together and taking it apart again.
  // ---------------------------------------------------------------------

  /** The host of `scheme://...` starts right after the "//". */
  lemma {:induction false} SchemeHostStart(scheme: string, rest: string)
    requires '/' !in scheme
    ensures HostStart(scheme + "://" + rest) == |scheme| + 3
  {
    var url := scheme + "://" + rest;
    assert url[|scheme|] == ':' && url[|scheme| + 1] == '/' && url[|scheme| + 2] == '/';
    forall i | 0 <= i < |scheme| + 1 ensures !DoubleSlashAt(url, i) {
      if i < |scheme| {
        assert url[i] == scheme[i];
      }
    }
    FindDoubleSlashAt(url, |scheme| + 1);
  }

  /** `scheme://host:port/path` breaks down into its host, port and path. */
  lemma {:induction false} ComposeWithPort(scheme: string, host: string, port: string, path: string)
    requires '/' !in scheme
    requires '/' !in host && ':' !in host && '/' !in port
    requires |path| > 0 && path[0] == '/'
    ensures BreakDownUrl(scheme + "://" + (host + (":" + (port + path)))) == Ok(Parts(host, port, path))
  {
    var pre := scheme + "://";
    var body := host + (":" + (port + path));
    var h := |pre|;
    SchemeHostStart(scheme, body);
    PortedSlash(pre, host, port, path);
    PortedColon(pre, host, port, path);
    PortedSlices(pre, host, port, path);
    BreakDownPorted(pre + body, h, h + |host|, h + |host + (":" + port)|, host, port, path);
  }

  /** The first '/' after `pre` in `pre host:port/path` starts the path. */
  lemma {:induction false} PortedSlash(pre: string, host: string, port: string, path: string)
    requires '/' !in host && '/' !in port
    requires |path| > 0 && path[0] == '/'
    ensures FindChar(pre + (host + (":" + (port + path))), '/', |pre|) == Some(|pre| + |host + (":" + port)|)
  {
    FindCharPastSep(pre, host, ":", port, path, '/');
  }

  /** The first ':' after `pre` in `pre host:port/path` ends the host. */
  lemma {:induction false} PortedColon(pre: string, host: string, port: string, path: string)
    requires ':' !in host
    ensures FindChar(pre + (host + (":" + (port + path))), ':', |pre|) == Some(|pre| + |host|)
  {
    FindCharAfter(pre, host, ":" + (port + path), ':');
  }

  /** The host, port and path cut out of `pre host:port/path`. */
  lemma {:induction false} PortedSlices(pre: string, host: string, port: string, path: string)
    ensures var url := pre + (host + (":" + (port + path)));
      && url[|pre|..|pre| + |host|] == host
      && url[|pre| + |host| + 1..|pre| + |host + (":" + port)|] == port
      && url[|pre| + |host + (":" + port)|..] == path
  {
    var body := host + (":" + (port + path));
    var slash := |host + (":" + port)|;
    SliceOffset(pre, body, 0, |host|);
    SliceOffset(pre, body, |host| + 1, slash);
    assert body[|host| + 1..slash] == port;
    SliceOffset(pre, body, slash, |body|);
  }

  /** `scheme://host/path` without a ':' anywhere after the scheme gets port "80". */
  lemma {:induction false} ComposeDefaultPort(scheme: string, host: string, path: string)
    requires '/' !in scheme
    requires '/' !in host && ':' !in host && ':' !in path
    requires |path| > 0 && path[0] == '/'
    ensures BreakDownUrl(scheme + "://" + (host + path)) == Ok(Parts(host, "80", path))
  {
    var pre := scheme + "://";
    var h := |pre|;
    SchemeHostStart(scheme, host + path);
    DefaultFinds(pre, host, path);
    DefaultSlices(pre, host, path);
    BreakDownDefault(pre + (host + path), h, h + |host|, host, path);
  }

  /** Where the first '/' after `pre` lies in `pre host/path`, with no ':' after it. */
  lemma {:induction false} DefaultFinds(pre: string, host: string, path: string)
    requires '/' !in host && ':' !in host && ':' !in path
    requires |path| > 0 && path[0] == '/'
    ensures FindChar(pre + (host + path), '/', |pre|) == Some(|pre| + |host|)
    ensures FindChar(pre + (host + path), ':', |pre|).None?
  {
    FindCharAfter(pre, host, path, '/');
    FindCharNone(pre, host + path, ':');
  }

  /** The host and path cut out of `pre host/path`. */
  lemma {:induction false} DefaultSlices(pre: string, host: string, path: string)
    ensures (pre + (host + path))[|pre|..|pre| + |host|] == host
    ensures (pre + (host + path))[|pre| + |host|..] == path
  {
    SliceOffset(pre, host + path, 0, |host|);
    SliceOffset(pre, host + path, |host|, |host + path|);
  }

  /**
   A ':' only inside the path is still taken for the port separator: the
   host runs up to it and the port is everything after it.
   */
  lemma {:induction false} ColonInPath(scheme: string, host: string, p1: string, p2: string)
    requires '/' !in scheme
    requires '/' !in host && ':' !in host && ':' !in p1
    ensures BreakDownUrl(scheme + "://" + (host + ("/" + (p1 + (":" + p2)))))
         == Ok(Parts(host + ("/" + p1), p2, "/" + (p1 + (":" + p2))))
  {
    var pre := scheme + "://";
    var body := host + ("/" + (p1 + (":" + p2)));
    var h := |pre|;
    SchemeHostStart(scheme, body);
    LateColonSlash(pre, host, p1, p2);
    LateColonColon(pre, host, p1, p2);
    LateColonSlices(pre, host, p1, p2);
    BreakDownLateColon(pre + body, h, h + |host|, h + |host + ("/" + p1)|, host + ("/" + p1), p2, "/" + (p1 + (":" + p2)));
  }

  /** The first '/' after `pre` in `pre host/p1:p2` ends the host. */
  lemma {:induction false} LateColonSlash(pre: string, host: string, p1: string, p2: string)
    requires '/' !in host
    ensures FindChar(pre + (host + ("/" + (p1 + (":" + p2)))), '/', |pre|) == Some(|pre| + |host|)
  {
    FindCharAfter(pre, host, "/" + (p1 + (":" + p2)), '/');
  }

  /** The first ':' after `pre` in `pre host/p1:p2` is the one inside the path. */
  lemma {:induction false} LateColonColon(pre: string, host: string, p1: string, p2: string)
    requires ':' !in host && ':' !in p1
    ensures FindChar(pre + (host + ("/" + (p1 + (":" + p2)))), ':', |pre|) == Some(|pre| + |host + ("/" + p1)|)
  {
    FindCharPastSep(pre, host, "/", p1, ":" + p2, ':');
  }

  /** The host, port and path cut out of `pre host/p1:p2`. */
  lemma {:induction false} LateColonSlices(pre: string, host: string, p1: string, p2: string)
    ensures var url := pre + (host + ("/" + (p1 + (":" + p2))));
      && url[|pre|..|pre| + |host + ("/" + p1)|] == host + ("/" + p1)
      && url[|pre| + |host + ("/" + p1)| + 1..] == p2
      && url[|pre| + |host|..] == "/" + (p1 + (":" + p2))
  {
    var body := host + ("/" + (p1 + (":" + p2)));
    var colon := |host + ("/" + p1)|;
    SliceOffset(pre, body, 0, colon);
    assert body[..colon] == host + ("/" + p1);
    SliceOffset(pre, body, colon + 1, |body|);
    assert body[colon + 1..] == p2;
    SliceOffset(pre, body, |host|, |body|);
  }

  /** In `c host/rest` the only '/' is the one before `rest`. */
  lemma {:induction false} OnlySlash(c: char, host: string, rest: string, i: nat)
    requires c != '/' && '/' !in host && '/' !in rest
    requires i < |[c] + (host + ("/" + rest))|
    ensures ([c] + (host + ("/" + rest)))[i] == '/' ==> i == |host| + 1
  {
    var url := [c] + (host + ("/" + rest));
    if i == 0 {
      assert url[i] == c;
    } else if i <= |host| {
      assert url[i] == host[i - 1];
    } else if i > |host| + 1 {
      assert url[i] == rest[i - |host| - 2];
    }
  }

  /** Without "//" the first character is skipped: "localhost/index.html" has host "ocalhost". */
  lemma {:induction false} NoSchemeDropsFirst(c: char, host: string, rest: string)
    requires c != '/' && c != ':'
    requires '/' !in host && ':' !in host && '/' !in rest && ':' !in rest
    ensures BreakDownUrl([c] + (host + ("/" + rest))) == Ok(Parts(host, "80", "/" + rest))
  {
    var body := host + ("/" + rest);
    var url := [c] + body;
    assert HostStart(url) == 1 by {
      forall i | 0 <= i ensures !DoubleSlashAt(url, i) {
        if i + 1 < |url| {
          OnlySlash(c, host, rest, i);
          OnlySlash(c, host, rest, i + 1);
        }
      }
    }
    assert FindChar(url, '/', 1) == Some(1 + |host|) by {
      assert body[..|host|] == host && body[|host|] == '/';
      FindCharOffset([c], body, '/', |host|);
    }
    assert FindChar(url, ':', 1).None? by {
      FindCharNone([c], body, ':');
    }
    assert url[1..1 + |host|] == host by {
      SliceOffset([c], body, 0, |host|);
    }
    assert url[1 + |host|..] == "/" + rest by {
      SliceOffset([c], body, |host|, |body|);
    }
    BreakDownDefault(url, 1, 1 + |host|, host, "/" + rest);
  }

  /** An empty URL, or one with no '/' after the host start, makes `substr` throw. */
  lemma {:induction false} NoPathThrows(scheme: string, host: string)
    requires '/' !in scheme && '/' !in host
    ensures BreakDownUrl("").Err?
    ensures BreakDownUrl(scheme + "://" + host).Err?
  {
    SchemeHostStart(scheme, host);
    FindCharNone(scheme + "://", host, '/');
  }

  // ---------------------------------------------------------------------
  // The examples of the documentation comment.
  // ---------------------------------------------------------------------

  /** "https://localhost:8080/~raodm/one.txt" */
  lemma {:induction false} HttpsExample()
    ensures BreakDownUrl("https" + "://" + ("localhost" + (":" + ("8080" + "/~raodm/one.txt"))))
         == Ok(Parts("localhost", "8080", "/~raodm/one.txt"))
  {
    ComposeWithPort("https", "localhost", "8080", "/~raodm/one.txt");
  }

  /** "ftp://ftp.files.miamioh.edu/index.html" */
  lemma {:induction false} FtpExample()
    ensures BreakDownUrl("ftp" + "://" + ("ftp.files.miamioh.edu" + "/index.html"))
         == Ok(Parts("ftp.files.miamioh.edu", "80", "/index.html"))
  {
    ComposeDefaultPort("ftp", "ftp.files.miamioh.edu", "/index.html");
  }
}
