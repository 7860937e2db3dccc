/** Taking the host out of the endpoint URL: sections 3.1 and 3.2 of RFC 3986, as far as the client goes. */
module Url {
  import opened Bytes

  datatype UrlError = InvalidInput | NoHost

  const HTTPS := "https://"
  const HTTP := "http://"

  predicate IsSpace(c: char) {
    c == ' ' || '\t' <= c <= '\r'
  }

  ghost predicate Spaces(s: string) {
    forall i :: 0 <= i < |s| ==> IsSpace(s[i])
  }

  function TrimLeft(s: string): (t: string)
    ensures t != "" ==> !IsSpace(t[0])
  {
    if s != "" && IsSpace(s[0]) then TrimLeft(s[1..]) else s
  }

  function TrimRight(s: string): (t: string)
    ensures t <= s
    ensures t != "" ==> !IsSpace(t[|t| - 1])
    ensures Spaces(s[|t|..])
  {
    if s != "" && IsSpace(s[|s| - 1]) then TrimRight(s[..|s| - 1]) else s
  }

  function Trim(s: string): string {
    TrimRight(TrimLeft(s))
  }

  /** The length of the scheme the code looks for. */
  function SchemeLength(s: string): (n: nat)
    ensures n <= |s|
  {
    if HTTPS <= s then |HTTPS| else if HTTP <= s then |HTTP| else 0
  }

  /** What comes before the first such character, everything if there is none. */
  function Until(s: string, c: char): (t: string)
    ensures t <= s && c !in t
    ensures |t| < |s| ==> s[|t|] == c
  {
    if s == "" || s[0] == c then "" else [s[0]] + Until(s[1..], c)
  }

  /** The search for a '/' starts one past the scheme, so the first character always belongs. */
  function Authority(rest: string): (a: string)
    ensures a <= rest
  {
    if rest == "" then "" else [rest[0]] + Until(rest[1..], '/')
  }

  function Parse(url: string): Result<string, UrlError> {
    if url == "" then
      Err(InvalidInput)
    else
      var t := Trim(url);
      var dns := Until(Authority(t[SchemeLength(t)..]), ':');
      if dns == "" then Err(NoHost) else Ok(dns)
  }

  function Find(s: string, c: char, start: nat): (i: Option<nat>)
    ensures i.Some? ==> start <= i.value < |s| && s[i.value] == c && c !in s[start..i.value]
    ensures i.None? && start <= |s| ==> c !in s[start..]
    decreases |s| - start
  {
    if start >= |s| then None else if s[start] == c then Some(start) else Find(s, c, start + 1)
  }

  lemma {:induction false} UntilIsUnique(s: string, c: char, n: nat)
    requires n <= |s| && c !in s[..n] && (n < |s| ==> s[n] == c)
    ensures Until(s, c) == s[..n]
  {
    if n > 0 {
      assert s[..n][0] == s[0];
      assert s[1..][..n - 1] == s[..n][1..];
      UntilIsUnique(s[1..], c, n - 1);
    }
  }

  method ParseURL(url: string) returns (r: Result<string, UrlError>)
    ensures r == Parse(url)
  {
    hide Find, Until, Authority, TrimLeft, TrimRight;
    if url == "" {
      return Err(InvalidInput);
    }
    var sanitized := TrimLeft(url);
    sanitized := TrimRight(sanitized);
    var offset := 0;
    offset := if offset == 0 && HTTPS <= sanitized then 8 else offset;
    offset := if offset == 0 && HTTP <= sanitized then 7 else offset;
    var pathIdx := Find(sanitized, '/', offset + 1);
    var dns := sanitized[offset..if pathIdx.Some? then pathIdx.value else |sanitized|];
    AuthorityByIndex(sanitized, offset);
    var portIdx := Find(dns, ':', 0);
    HostByIndex(dns);
    dns := dns[..if portIdx.Some? then portIdx.value else |dns|];
    if dns == "" {
      return Err(NoHost);
    }
    return Ok(dns);
  }

  lemma AuthorityByIndex(s: string, offset: nat)
    requires offset <= |s|
    ensures
      var i := Find(s, '/', offset + 1);
      s[offset..if i.Some? then i.value else |s|] == Authority(s[offset..])
  {
    hide Until, Find, Authority;
    var i := Find(s, '/', offset + 1);
    var end := if i.Some? then i.value else |s|;
    if offset < |s| {
      AuthorityEnds(s, offset, end);
    }
  }

  lemma AuthorityEnds(s: string, offset: nat, end: nat)
    requires offset < end <= |s|
    requires '/' !in s[offset + 1..end] && (end < |s| ==> s[end] == '/')
    ensures Authority(s[offset..]) == s[offset..end]
  {
    hide Until;
    SliceOfSlice(s, offset, end);
    var rest := s[offset..];
    UntilIsUnique(rest[1..], '/', end - offset - 1);
  }

  lemma SliceOfSlice(s: string, offset: nat, end: nat)
    requires offset < end <= |s|
    ensures
      var rest, n := s[offset..], end - offset - 1;
      && rest[1..][..n] == s[offset + 1..end]
      && (end < |s| ==> rest[1..][n] == s[end])
      && (end == |s| ==> n == |rest[1..]|)
      && [rest[0]] + rest[1..][..n] == s[offset..end]
  {
  }

  lemma HostByIndex(dns: string)
    ensures var i := Find(dns, ':', 0); dns[..if i.Some? then i.value else |dns|] == Until(dns, ':')
  {
    hide Until, Find;
    var i := Find(dns, ':', 0);
    assert dns[0..] == dns;
    UntilIsUnique(dns, ':', if i.Some? then i.value else |dns|);
  }

  // ---------- which host is found ----------

  /** A host, nonempty and free of '/', ':' and white space. */
  predicate IsHost(s: string) {
    s != "" && forall i :: 0 <= i < |s| ==> s[i] != '/' && s[i] != ':' && !IsSpace(s[i])
  }

  predicate IsPort(s: string) {
    s == "" || (s[0] == ':' && forall i :: 1 <= i < |s| ==> '0' <= s[i] <= '9')
  }

  predicate IsPath(s: string) {
    s == "" || s[0] == '/'
  }

  predicate IsScheme(s: string) {
    s == "" || s == HTTP || s == HTTPS
  }

  lemma {:induction false} TrimLeftDrops(a: string, s: string)
    requires Spaces(a) && (s != "" ==> !IsSpace(s[0]))
    ensures TrimLeft(a + s) == s
  {
    if a == "" {
      assert a + s == s;
    } else {
      assert (a + s)[1..] == a[1..] + s;
      TrimLeftDrops(a[1..], s);
    }
  }

  /** Trimming on the right keeps everything up to the last character that is no space. */
  lemma {:induction false} TrimRightKeeps(s: string, t: string)
    requires s != "" && !IsSpace(s[|s| - 1])
    ensures s <= TrimRight(s + t)
  {
    if t == "" {
      assert s + t == s;
    } else {
      assert (s + t)[..|s + t| - 1] == s + t[..|t| - 1];
      TrimRightKeeps(s, t[..|t| - 1]);
    }
  }

  lemma {:induction false} TrimRightDrops(s: string, after: string)
    requires Spaces(after) && s != "" && !IsSpace(s[|s| - 1])
    ensures TrimRight(s + after) == s
  {
    if after == "" {
      assert s + after == s;
    } else {
      assert (s + after)[..|s + after| - 1] == s + after[..|after| - 1];
      TrimRightDrops(s, after[..|after| - 1]);
    }
  }

  /** Trimming leaves the front, and of the path a path, which has two slashes only if the path had. */
  lemma Trimmed(before: string, front: string, path: string, after: string)
    requires Spaces(before) && Spaces(after) && IsPath(path)
    requires front != "" && !IsSpace(front[0]) && !IsSpace(front[|front| - 1])
    ensures
      var t := Trim(before + (front + (path + after)));
      && front <= t
      && IsPath(t[|front|..])
      && ("//" <= t[|front|..] ==> "//" <= path)
  {
    hide TrimRight, TrimLeft;
    TrimLeftDrops(before, front + (path + after));
    TrimRightKeeps(front, path + after);
    if path == "" {
      assert path + after == after;
      TrimRightDrops(front, after);
    } else {
      var t := TrimRight(front + (path + after));
      var rest := t[|front|..];
      assert rest <= path + after;
      assert |path| == 1 && after != "" ==> (path + after)[1] == after[0];
    }
  }

  lemma AuthorityIs(host: string, port: string, path: string)
    requires IsHost(host) && IsPort(port) && IsPath(path)
    ensures Until(Authority(host + port + path), ':') == host
  {
    var a := host + port;
    var s := a + path;
    assert s == host + port + path;
    assert forall i :: 0 <= i < |a| ==> a[i] != '/';
    assert s[1..][..|a| - 1] == a[1..];
    UntilIsUnique(s[1..], '/', |a| - 1);
    assert Authority(s) == a;
    assert a[..|host|] == host;
    UntilIsUnique(a, ':', |host|);
  }

  /** A URL without a scheme that nevertheless begins like one that has it. */
  predicate Ambiguous(scheme: string, host: string, port: string, path: string) {
    scheme == "" && (host == "http" || host == "https") && port == ":" && "//" <= path
  }

  lemma At(a: string, b: string, c: string, i: nat)
    requires i < |a| + |b| + |c|
    ensures (a + b + c)[i]
         == if i < |a| then a[i] else if i < |a| + |b| then b[i - |a|] else c[i - |a| - |b|]
  {
  }

  /** Text that begins with letters, ':' and two slashes splits there. */
  lemma LooksLikeScheme(host: string, port: string, path: string, name: string)
    requires IsHost(host) && IsPort(port) && IsPath(path)
    requires name == "http" || name == "https"
    requires name + "://" <= host + port + path
    ensures host == name && port == ":" && "//" <= path
  {
    var n, s := |name|, host + port + path;
    assert s[..n] == name && s[n] == ':' && s[n + 1] == '/' && s[n + 2] == '/';
    assert forall i :: 0 <= i < n ==> s[i] == name[i] != ':' && name[i] != '/';
    At(host, port, path, n);
    At(host, port, path, n + 1);
    At(host, port, path, n + 2);
    if |host| < |s| {
      At(host, port, path, |host|);
    }
    assert |host| == n;
    assert s[..n] == host;
  }

  lemma SchemeIs(scheme: string, host: string, port: string, path: string)
    requires IsScheme(scheme) && IsHost(host) && IsPort(port) && IsPath(path)
    requires !Ambiguous(scheme, host, port, path)
    ensures SchemeLength(scheme + (host + port + path)) == |scheme|
  {
    var rest := host + port + path;
    if scheme == "" {
      assert scheme + rest == rest;
      assert HTTP == "http" + "://" && HTTPS == "https" + "://";
      if HTTP <= rest {
        LooksLikeScheme(host, port, path, "http");
      } else if HTTPS <= rest {
        LooksLikeScheme(host, port, path, "https");
      }
    } else {
      assert (scheme + rest)[4] == scheme[4];
    }
  }

  /**
   The host is recovered from any URL of this form: white space around it, no scheme or either
   scheme, a port or none, a path or none.
   */
  lemma HostIsFound(before: string, scheme: string, host: string, port: string, path: string, after: string)
    requires Spaces(before) && Spaces(after)
    requires IsScheme(scheme) && IsHost(host) && IsPort(port) && IsPath(path)
    requires !Ambiguous(scheme, host, port, path)
    ensures Parse(before + scheme + host + port + path + after) == Ok(host)
  {
    hide Trim, SchemeLength, Authority, Until, Spaces;
    var front := scheme + host + port;
    var url := before + scheme + host + port + path + after;
    Rearrange(before, scheme, host, port, path, after);
    Edges(scheme, host, port);
    Trimmed(before, front, path, after);
    var t := Trim(url);
    var rest := t[|front|..];
    assert t == front + rest;
    Rearrange("", scheme, host, port, rest, "");
    SchemeIs(scheme, host, port, rest);
    AuthorityIs(host, port, rest);
  }

  lemma Rearrange(before: string, scheme: string, host: string, port: string, path: string, after: string)
    ensures
      before + scheme + host + port + path + after
      == before + ((scheme + host + port) + (path + after))
    ensures (scheme + host + port) + path == scheme + (host + port + path)
    ensures (scheme + (host + port + path))[|scheme|..] == host + port + path
  {
  }

  lemma Edges(scheme: string, host: string, port: string)
    requires IsScheme(scheme) && IsHost(host) && IsPort(port)
    ensures var f := scheme + host + port; f != "" && !IsSpace(f[0]) && !IsSpace(f[|f| - 1])
  {
    var f := scheme + host + port;
    At(scheme, host, port, 0);
    At(scheme, host, port, |f| - 1);
  }

  // ---------- a URL that can be read with a scheme ----------

  lemma {:induction false} SpacesAreTrimmed(s: string, after: string)
    requires Spaces(after)
    ensures TrimRight(s + after) == TrimRight(s)
  {
    if after == "" {
      assert s + after == s;
    } else {
      assert (s + after)[..|s + after| - 1] == s + after[..|after| - 1];
      SpacesAreTrimmed(s, after[..|after| - 1]);
    }
  }

  lemma {:induction false} TrimRightBehind(s: string, t: string)
    requires TrimRight(t) != ""
    ensures TrimRight(s + t) == s + TrimRight(t)
  {
    assert (s + t)[..|s + t| - 1] == s + t[..|t| - 1];
    if IsSpace(t[|t| - 1]) {
      TrimRightBehind(s, t[..|t| - 1]);
    }
  }

  /** What an ambiguous URL has behind "http://" or "https://". */
  function BehindSlashes(path: string): string {
    var p := TrimRight(path);
    if |p| >= 2 then p[2..] else ""
  }

  /** Text in which the host comes first, and ends there as a host does. */
  predicate StartsWithHost(rest: string, host: string) {
    host <= rest && (|rest| == |host| || rest[|host|] == '/' || rest[|host|] == ':')
  }

  lemma AmbiguousTrimmed(before: string, host: string, port: string, path: string, after: string)
    requires Spaces(before) && Spaces(after) && IsHost(host) && Ambiguous("", host, port, path)
    ensures
      var t := Trim(before + "" + host + port + path + after);
      SchemeLength(t) == |host| + 3 && t[|host| + 3..] == BehindSlashes(path)
  {
    hide TrimRight, TrimLeft, SchemeLength;
    var front := host + port;
    Rearrange(before, "", host, port, path, after);
    assert "" + host + port == front;
    TrimLeftDrops(before, front + (path + after));
    SpacesAreTrimmed(path, after);
    assert path == "//" + path[2..];
    TrimRightKeeps("//", path[2..]);
    TrimRightBehind(front, path + after);
    var t := front + TrimRight(path);
    assert t == (if host == "http" then HTTP else HTTPS) + BehindSlashes(path);
    SchemeIsRead(host == "https", BehindSlashes(path));
  }

  lemma SchemeIsRead(secure: bool, rest: string)
    ensures var s := if secure then HTTPS else HTTP; SchemeLength(s + rest) == |s| && (s + rest)[|s|..] == rest
  {
    assert !secure ==> (HTTP + rest)[4] == ':';
  }

  /** An authority gives this host exactly when it starts with it. */
  lemma StartsWithHostIff(rest: string, host: string)
    requires IsHost(host)
    ensures Until(Authority(rest), ':') == host <==> StartsWithHost(rest, host)
  {
    if StartsWithHost(rest, host) {
      HostComesFirst(rest, host);
    } else if rest != "" {
      var a := Authority(rest);
      assert a == [rest[0]] + Until(rest[1..], '/');
      assert |a| < |rest| ==> rest[|a|] == rest[1..][|a| - 1];
    }
  }

  lemma HostComesFirst(rest: string, host: string)
    requires IsHost(host) && StartsWithHost(rest, host)
    ensures Until(Authority(rest), ':') == host
  {
    hide Until;
    var a := Authority(rest);
    var tail := Until(rest[1..], '/');
    assert rest[..|host|] == host && a == [rest[0]] + tail;
    assert |a| < |rest| ==> rest[|a|] == rest[1..][|tail|];
    assert forall i :: 0 <= i < |host| ==> rest[i] == host[i] != '/';
    assert |host| <= |a|;
    assert a[..|host|] == host;
    assert |host| < |a| ==> a[|host|] == rest[|host|];
    assert |host| < |a| ==> tail[|host| - 1] == a[|host|];
    UntilIsUnique(a, ':', |host|);
  }

  /** An ambiguous URL is read with the scheme: its host is looked for behind the slashes. */
  lemma AmbiguousYields(before: string, host: string, port: string, path: string, after: string)
    requires Spaces(before) && Spaces(after) && IsHost(host) && Ambiguous("", host, port, path)
    ensures
      var dns := Until(Authority(BehindSlashes(path)), ':');
      Parse(before + "" + host + port + path + after) == if dns == "" then Err(NoHost) else Ok(dns)
  {
    hide Trim, SchemeLength, Authority, Until, BehindSlashes;
    AmbiguousTrimmed(before, host, port, path, after);
  }

  /**
   For each URL: the host is found exactly unless the URL is ambiguous and what it has behind the
   slashes does not start with the same host.
   */
  lemma HostIsFoundIff(before: string, scheme: string, host: string, port: string, path: string, after: string)
    requires Spaces(before) && Spaces(after)
    requires IsScheme(scheme) && IsHost(host) && IsPort(port) && IsPath(path)
    ensures
      Parse(before + scheme + host + port + path + after) == Ok(host) <==>
      !Ambiguous(scheme, host, port, path) || StartsWithHost(BehindSlashes(path), host)
  {
    hide Parse, Authority, Until, BehindSlashes, StartsWithHost, Spaces, IsHost, IsPort, IsPath;
    if Ambiguous(scheme, host, port, path) {
      AmbiguousYields(before, host, port, path, after);
      StartsWithHostIff(BehindSlashes(path), host);
      HostIsNotEmpty(host);
    } else {
      HostIsFound(before, scheme, host, port, path, after);
    }
  }

  lemma HostIsNotEmpty(host: string)
    requires IsHost(host)
    ensures host != ""
  {
  }

  /**
   For a scheme and a host, every port, path and outer white space lets the host be found, exactly
   unless there is no scheme and the host is itself the name of one: then "http" + ":" + "//a"
   gives "a".
   */
  lemma AlwaysFoundIff(scheme: string, host: string)
    requires IsScheme(scheme) && IsHost(host)
    ensures
      (forall before, port, path, after ::
         Spaces(before) && IsPort(port) && IsPath(path) && Spaces(after) ==>
           Parse(before + scheme + host + port + path + after) == Ok(host))
      <==> scheme != "" || (host != "http" && host != "https")
  {
    hide Parse;
    if scheme != "" || (host != "http" && host != "https") {
      forall before, port, path, after | Spaces(before) && IsPort(port) && IsPath(path) && Spaces(after)
        ensures Parse(before + scheme + host + port + path + after) == Ok(host)
      {
        HostIsFound(before, scheme, host, port, path, after);
      }
    } else {
      assert Spaces("") && IsPort(":") && IsPath("//a");
      SchemeNameIsLost(host);
    }
  }

  lemma SchemeNameIsLost(host: string)
    requires host == "http" || host == "https"
    ensures Parse("" + "" + host + ":" + "//a" + "") == Ok("a")
  {
    hide Parse;
    var s := if host == "http" then HTTP else HTTPS;
    assert "" + "" + host + ":" + "//a" + "" == "" + s + "a" + "" + "" + "";
    HostIsFound("", s, "a", "", "", "");
  }

  /**
   Whatever is parsed, success means something other than ':' comes first after the scheme; the
   result is nonempty, free of ':', and stands in the trimmed text right behind the scheme.
   */
  lemma ResultIsSlice(url: string, t: string, n: nat, r: Result<string, UrlError>)
    requires t == Trim(url) && n == SchemeLength(t) && r == Parse(url)
    ensures r.Ok? <==> url != "" && n < |t| && t[n] != ':'
    ensures r.Ok? ==>
              && r.value != ""
              && ':' !in r.value
              && r.value <= t[n..]
              && '/' !in r.value[1..]
    ensures r == Err(InvalidInput) <==> url == ""
  {
    hide Trim, SchemeLength;
    var rest := t[n..];
    var a := Authority(rest);
    var host := Until(a, ':');
    if rest != "" {
      assert a[0] == rest[0] == t[n];
      assert a[1..] == Until(rest[1..], '/');
      if host != "" {
        assert host[1..] <= a[1..];
      }
    }
  }

  // ---------- in literal form ----------

  /** The schemes and the white space there are. */
  lemma LiteralForms(s: string, c: char)
    ensures IsScheme(s) <==> s == "" || s == "http://" || s == "https://"
    ensures IsSpace(c) <==> c == ' ' || c == '\t' || c == '\n' || c == 11 as char || c == 12 as char || c == '\r'
  {
  }

  lemma ParseVectors()
    ensures Parse("https://h.i:80/p") == Ok("h.i")
    ensures Parse(" http://h.i ") == Ok("h.i")
    ensures Parse("h.i/p") == Ok("h.i")
    ensures Parse("") == Err(InvalidInput) && Parse(" ") == Err(NoHost) && Parse("http://") == Err(NoHost)
  {
    hide Parse;
    assert Spaces("") && Spaces(" ");
    HostIsFound("", "https://", "h.i", ":80", "/p", "");
    HostIsFound(" ", "http://", "h.i", "", "", " ");
    HostIsFound("", "", "h.i", "", "/p", "");
    assert "" + "https://" + "h.i" + ":80" + "/p" + "" == "https://h.i:80/p";
    assert " " + "http://" + "h.i" + "" + "" + " " == " http://h.i ";
    assert "" + "" + "h.i" + "" + "/p" + "" == "h.i/p";
    NothingFound();
  }

  lemma NothingFound()
    ensures Parse("") == Err(InvalidInput) && Parse(" ") == Err(NoHost) && Parse("http://") == Err(NoHost)
  {
    assert " "[1..] == "";
    assert Trim("http://") == "http://";
    assert "http://"[7..] == "";
  }
}
