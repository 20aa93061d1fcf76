/**
 * The string building of forward_request: the host/port split, the
 * GET-only test, the forwarded request line and headers, and the cache
 * key. The client's request line is taken already split into method,
 * hostname and filename, and its header lines as a sequence, each line
 * with its "\r\n".
 */
module ProxyRequest {
  import opened Options

  const UserAgentHdr: string := "User-Agent: Mozilla/5.0 (X11; Linux x86_64; rv:10.0.3) Gecko/20120305 Firefox/10.0.3\r\n"
  const ConnectionHdr: string := "Connection: close\r\n"
  const HostHdrPrefix: string := "Host:"
  const ProxyConnectionHdr: string := "Proxy-Connection: close\r\n"
  const HttpVersion: string := "HTTP/1.0\r\n"
  const DefaultPort: string := "80"

  /** The position of the first c in s, or |s| when there is none (index). */
  function IndexOf(s: string, c: char): (k: nat)
    ensures k <= |s| && (k < |s| ==> s[k] == c)
    ensures forall j :: 0 <= j < k ==> s[j] != c
  {
    if s == [] then 0
    else if s[0] == c then 0
    else 1 + IndexOf(s[1..], c)
  }

  /** The first c of a + [c] + b is the one after a when a has none. */
  lemma IndexOfJoin(a: string, c: char, b: string)
    requires c !in a
    ensures IndexOf(a + [c] + b, c) == |a|
  {
    var s := a + [c] + b;
    assert s[|a|] == c;
    assert forall j :: 0 <= j < |a| ==> s[j] == a[j];
  }

  /**
   * The host/port split: a hostname with a colon is cut at its first
   * colon into host and port; without one the port is "80".
   */
  function SplitHostPort(hostname: string): (r: (string, string))
    ensures ':' in hostname ==> r.0 + ":" + r.1 == hostname && ':' !in r.0
    ensures ':' !in hostname ==> r == (hostname, DefaultPort)
  {
    var k := IndexOf(hostname, ':');
    if k < |hostname| then (hostname[..k], hostname[k + 1..]) else (hostname, DefaultPort)
  }

  /** Joining a colon-free host and a port with ":" and splitting again gives them back. */
  lemma SplitJoin(host: string, port: string)
    requires ':' !in host
    ensures SplitHostPort(host + ":" + port) == (host, port)
  {
    IndexOfJoin(host, ':', port);
    var s := host + ":" + port;
    assert s[..|host|] == host;
    assert s[|host| + 1..] == port;
  }

  /** ASCII lower case, as the C locale's tolower. */
  function Lower(c: char): char
  {
    if 'A' <= c <= 'Z' then (c as int + 32) as char else c
  }

  /** strcasecmp(a, b) == 0. */
  function EqualFold(a: string, b: string): bool
  {
    if a == [] || b == [] then a == b
    else Lower(a[0]) == Lower(b[0]) && EqualFold(a[1..], b[1..])
  }

  /** EqualFold holds exactly for strings of one length that agree character by character once lowered. */
  lemma {:induction false} EqualFoldMeaning(a: string, b: string)
    decreases |a|
    ensures EqualFold(a, b) <==> |a| == |b| && forall i :: 0 <= i < |a| ==> Lower(a[i]) == Lower(b[i])
  {
    if a != [] && b != [] {
      EqualFoldMeaning(a[1..], b[1..]);
      if |a| == |b| && forall i :: 0 <= i < |a[1..]| ==> Lower(a[1..][i]) == Lower(b[1..][i]) {
        forall i | 1 <= i < |a|
          ensures Lower(a[i]) == Lower(b[i])
        {
          assert a[i] == a[1..][i - 1] && b[i] == b[1..][i - 1];
        }
      }
    }
  }

  /** The method passes the GET test exactly when it is "GET" in any mix of cases. */
  lemma IsGet(m: string)
    ensures EqualFold(m, "GET") <==>
      |m| == 3 && (m[0] == 'g' || m[0] == 'G') && (m[1] == 'e' || m[1] == 'E') && (m[2] == 't' || m[2] == 'T')
  {
    EqualFoldMeaning(m, "GET");
  }

  /** strstr(s, t) != NULL: t occurs in s. */
  function Contains(s: string, t: string): bool
    decreases |s|
  {
    if |t| > |s| then false
    else if s[..|t|] == t then true
    else Contains(s[1..], t)
  }

  /** t occurs in s at position i. */
  predicate OccursAt(s: string, t: string, i: nat)
  {
    i + |t| <= |s| && s[i..i + |t|] == t
  }

  /** Contains finds t exactly when t occurs somewhere in s. */
  lemma {:induction false} ContainsMeaning(s: string, t: string)
    decreases |s|
    ensures Contains(s, t) <==> exists i: nat :: OccursAt(s, t, i)
  {
    if |t| <= |s| && s[..|t|] != t {
      ContainsMeaning(s[1..], t);
      if Contains(s[1..], t) {
        var i: nat :| OccursAt(s[1..], t, i);
        assert s[i + 1..i + 1 + |t|] == s[1..][i..i + |t|];
        assert OccursAt(s, t, i + 1);
      }
      if exists i: nat :: OccursAt(s, t, i) {
        var i: nat :| OccursAt(s, t, i);
        assert i != 0;
        assert s[1..][i - 1..i - 1 + |t|] == s[i..i + |t|];
        assert OccursAt(s[1..], t, i - 1);
      }
    } else if |t| <= |s| {
      assert OccursAt(s, t, 0);
    }
  }

  /** A string that contains t contains whatever t contains. */
  lemma ContainsWithin(s: string, t: string, u: string)
    requires Contains(s, t) && Contains(t, u)
    ensures Contains(s, u)
  {
    ContainsMeaning(s, t);
    ContainsMeaning(t, u);
    var i: nat :| OccursAt(s, t, i);
    var j: nat :| OccursAt(t, u, j);
    forall k | 0 <= k < |u|
      ensures s[i + j + k] == u[k]
    {
      assert s[i + j + k] == s[i..i + |t|][j + k] == t[j + k] == t[j..j + |u|][k];
    }
    assert s[i + j..i + j + |u|] == u;
    assert OccursAt(s, u, i + j);
    ContainsMeaning(s, u);
  }

  /** The Host header the proxy sends for host. */
  function HostHeader(host: string): string
  {
    HostHdrPrefix + " " + host + "\r\n"
  }

  /** s ends with "\r\n". */
  predicate EndsCrlf(s: string)
  {
    |s| >= 2 && s[|s| - 2..] == "\r\n"
  }

  /** Every line that names Proxy-Connection also names Connection. */
  lemma ProxyNamesConnection(line: string)
    ensures Contains(line, "Proxy-Connection:") ==> Contains(line, "Connection:")
  {
    var pc: string := "Proxy-Connection:";
    var cn: string := "Connection:";
    if Contains(line, pc) {
      assert pc[6..6 + |cn|] == cn;
      assert OccursAt(pc, cn, 6);
      ContainsMeaning(pc, cn);
      ContainsWithin(line, pc, cn);
    }
  }

  /**
   * One client header line as forwarded: the first of "User-Agent:",
   * "Connection:", "Proxy-Connection:" and "Host:" that the line contains
   * selects a fixed line; any other line is passed on as it is. The
   * proxy's own Proxy-Connection line is never the result, a line is only
   * changed when it names User-Agent, Connection or Host, and a line that
   * ends in "\r\n" is forwarded as one that does too.
   */
  function RewriteLine(line: string, hostHdr: string): (r: string)
    ensures r in {line, UserAgentHdr, ConnectionHdr, hostHdr}
    ensures r != line ==> Contains(line, "User-Agent:") || Contains(line, "Connection:") || Contains(line, "Host:")
    ensures EndsCrlf(line) && (|hostHdr| > 0 ==> EndsCrlf(hostHdr)) ==> EndsCrlf(r)
  {
    ProxyNamesConnection(line);
    if Contains(line, "User-Agent:") then UserAgentHdr
    else if Contains(line, "Connection:") then ConnectionHdr
    else if Contains(line, "Proxy-Connection:") then ProxyConnectionHdr
    else if Contains(line, "Host:") then (if |hostHdr| > 0 then hostHdr else line)
    else line
  }

  /**
   * A Proxy-Connection line is caught by the Connection test, so it is
   * forwarded as "Connection: close" and the Proxy-Connection line is
   * never sent.
   */
  lemma ProxyConnectionSentAsConnection(line: string, hostHdr: string)
    requires Contains(line, "Proxy-Connection:") && !Contains(line, "User-Agent:")
    ensures RewriteLine(line, hostHdr) == ConnectionHdr
    ensures RewriteLine(line, hostHdr) != ProxyConnectionHdr
  {
    ProxyNamesConnection(line);
    assert ConnectionHdr[0] != ProxyConnectionHdr[0];
  }

  /** A Host line, the earlier tests failing, is replaced by the proxy's own Host header for host. */
  lemma HostLineReplaced(line: string, host: string)
    requires Contains(line, "Host:") && !Contains(line, "User-Agent:") && !Contains(line, "Connection:")
    ensures RewriteLine(line, HostHeader(host)) == "Host: " + host + "\r\n"
  {
    var pc: string := "Proxy-Connection:";
    if Contains(line, pc) {
      ProxyConnectionSentAsConnection(line, HostHeader(host));
    }
  }

  /**
   * The header part of the forwarded request: client lines are rewritten
   * one by one until the blank line "\r\n" or the end of input, and a
   * final "\r\n" closes the headers.
   */
  function Headers(lines: seq<string>, hostHdr: string): string
    decreases |lines|
  {
    if lines == [] || lines[0] == "\r\n" then "\r\n"
    else RewriteLine(lines[0], hostHdr) + Headers(lines[1..], hostHdr)
  }

  /** The position of the first blank line, or |lines| when there is none. */
  function BlankAt(lines: seq<string>): (k: nat)
    ensures k <= |lines| && (k < |lines| ==> lines[k] == "\r\n")
    ensures forall j :: 0 <= j < k ==> lines[j] != "\r\n"
  {
    if lines == [] then 0
    else if lines[0] == "\r\n" then 0
    else 1 + BlankAt(lines[1..])
  }

  /** The strings of ss one after another. */
  function Concat<T>(ss: seq<seq<T>>): seq<T>
  {
    if ss == [] then [] else Concat(ss[..|ss| - 1]) + ss[|ss| - 1]
  }

  lemma {:induction false} ConcatCons<T>(x: seq<T>, ss: seq<seq<T>>)
    decreases |ss|
    ensures Concat([x] + ss) == x + Concat(ss)
  {
    if ss != [] {
      var ss' := ss[..|ss| - 1];
      ConcatCons(x, ss');
      assert ([x] + ss)[..|ss|] == [x] + ss';
    } else {
      assert ([x] + ss)[..0] == [];
    }
  }

  /** Every line rewritten. */
  function RewriteAll(lines: seq<string>, hostHdr: string): (r: seq<string>)
    ensures |r| == |lines| && forall i :: 0 <= i < |lines| ==> r[i] == RewriteLine(lines[i], hostHdr)
  {
    if lines == [] then [] else [RewriteLine(lines[0], hostHdr)] + RewriteAll(lines[1..], hostHdr)
  }

  /**
   * The forwarded headers are the rewritten lines before the first blank
   * line, in order, and then "\r\n": whatever follows the blank line is
   * not forwarded.
   */
  lemma {:induction false} HeadersMeaning(lines: seq<string>, hostHdr: string)
    decreases |lines|
    ensures Headers(lines, hostHdr) == Concat(RewriteAll(lines[..BlankAt(lines)], hostHdr)) + "\r\n"
  {
    if lines != [] && lines[0] != "\r\n" {
      var k := BlankAt(lines);
      HeadersMeaning(lines[1..], hostHdr);
      assert lines[..k][1..] == lines[1..][..k - 1];
      var rest := RewriteAll(lines[1..][..k - 1], hostHdr);
      assert RewriteAll(lines[..k], hostHdr) == [RewriteLine(lines[0], hostHdr)] + rest;
      ConcatCons(RewriteLine(lines[0], hostHdr), rest);
    } else {
      assert lines[..0] == [];
    }
  }

  /** The first c of a + [c] + b ends a, when a has none. */
  lemma FirstAfter(a: string, c: char, b: string)
    ensures c !in a ==> IndexOf(a + [c] + b, c) == |a|
  {
    if c !in a {
      IndexOfJoin(a, c, b);
    }
  }

  /**
   * The forwarded request line: the method as the client wrote it, a
   * space, the filename, a space and "HTTP/1.0\r\n" whatever version the
   * client asked for. A method without spaces ends at the line's first
   * space, where the server's request-line scan cuts it.
   */
  function RequestLine(verb: string, filename: string): (r: string)
    ensures |r| > |verb| && r[..|verb|] == verb && r[|verb|] == ' '
    ensures |r| >= |HttpVersion| && r[|r| - |HttpVersion|..] == HttpVersion && EndsCrlf(r)
    ensures ' ' !in verb ==> IndexOf(r, ' ') == |verb|
  {
    var rest := filename + " " + HttpVersion;
    FirstAfter(verb, ' ', rest);
    assert verb + [' '] + rest == verb + " " + filename + " " + HttpVersion;
    verb + " " + filename + " " + HttpVersion
  }

  /**
   * The four fields of a cache key: cut at its first space, then at the
   * first colon after that, then at the first space after that.
   */
  function KeyFields(key: string): (string, string, string, string)
  {
    var i := IndexOf(key, ' ');
    var rest := if i < |key| then key[i + 1..] else [];
    var j := IndexOf(rest, ':');
    var rest2 := if j < |rest| then rest[j + 1..] else [];
    var k := IndexOf(rest2, ' ');
    (key[..i], rest[..j], rest2[..k], if k < |rest2| then rest2[k + 1..] else [])
  }

  /** Cutting a + [c] + b at its first c, when a has none, gives a and b. */
  lemma CutFirst(a: string, c: char, b: string)
    requires c !in a
    ensures var s := a + [c] + b; var i := IndexOf(s, c);
      i == |a| && i < |s| && s[..i] == a && s[i + 1..] == b
  {
    IndexOfJoin(a, c, b);
    var s := a + [c] + b;
    assert s[..|a|] == a;
    assert s[|a| + 1..] == b;
  }

  /** The separated fields of a key come back out of KeyFields. */
  lemma KeyFieldsJoin(verb: string, host: string, port: string, filename: string)
    ensures ' ' !in verb && ':' !in host && ' ' !in port ==>
      KeyFields(verb + [' '] + (host + [':'] + (port + [' '] + filename))) == (verb, host, port, filename)
  {
    if ' ' !in verb && ':' !in host && ' ' !in port {
      CutFirst(verb, ' ', host + [':'] + (port + [' '] + filename));
      CutFirst(host, ':', port + [' '] + filename);
      CutFirst(port, ' ', filename);
    }
  }

  /**
   * The cache key of a request: method, space, host, colon, port, space,
   * filename. With a method and port free of spaces and a host free of
   * colons, KeyFields gives the four fields back.
   */
  function CacheKey(verb: string, host: string, port: string, filename: string): (r: string)
    ensures ' ' !in verb && ':' !in host && ' ' !in port ==> KeyFields(r) == (verb, host, port, filename)
  {
    KeyFieldsJoin(verb, host, port, filename);
    assert verb + [' '] + (host + [':'] + (port + [' '] + filename)) == verb + " " + host + ":" + port + " " + filename;
    verb + " " + host + ":" + port + " " + filename
  }

  /** What forward_request builds for a GET request: the server to ask, the request to send, the cache key. */
  datatype Forward = Forward(host: string, port: string, request: string, key: string)

  /**
   * The request forward_request composes, None when the method is not
   * GET in any mix of cases. The method is forwarded as the client wrote it.
   */
  function Compose(verb: string, hostname: string, filename: string, lines: seq<string>): (r: Option<Forward>)
    ensures r.Some? <==> EqualFold(verb, "GET")
  {
    var (host, port) := SplitHostPort(hostname);
    if !EqualFold(verb, "GET") then None
    else Some(Forward(host, port, RequestLine(verb, filename) + Headers(lines, HostHeader(host)),
                      CacheKey(verb, host, port, filename)))
  }

  /**
   * The cache key identifies the request: two GET requests whose method
   * and hostname hold no space (they come from a "%s" scan) and whose keys
   * agree have the same method, host, port and filename.
   */
  lemma KeyIdentifiesRequest(m1: string, hn1: string, f1: string, l1: seq<string>,
                             m2: string, hn2: string, f2: string, l2: seq<string>)
    requires ' ' !in m1 && ' ' !in hn1 && ' ' !in m2 && ' ' !in hn2
    requires Compose(m1, hn1, f1, l1).Some? && Compose(m2, hn2, f2, l2).Some?
    requires Compose(m1, hn1, f1, l1).value.key == Compose(m2, hn2, f2, l2).value.key
    ensures m1 == m2 && f1 == f2
    ensures SplitHostPort(hn1) == SplitHostPort(hn2)
  {
    var (h1, p1) := SplitHostPort(hn1);
    var (h2, p2) := SplitHostPort(hn2);
    SplitNoSpace(hn1);
    SplitNoSpace(hn2);
    assert KeyFields(CacheKey(m1, h1, p1, f1)) == (m1, h1, p1, f1);
    assert KeyFields(CacheKey(m2, h2, p2, f2)) == (m2, h2, p2, f2);
  }

  /** The split of a space-free hostname gives a colon-free host and a space-free port. */
  lemma SplitNoSpace(hostname: string)
    requires ' ' !in hostname
    ensures ':' !in SplitHostPort(hostname).0 && ' ' !in SplitHostPort(hostname).1
  {
    var k := IndexOf(hostname, ':');
    if k < |hostname| {
      assert forall x :: x in hostname[k + 1..] ==> x in hostname;
    }
  }

  /**
   * forward_request's composition: split the hostname, build the Host
   * header, give up unless the method is GET, then append the request
   * line, each rewritten header line up to the blank line, and the final
   * "\r\n", and build the cache key.
   */
  method ForwardRequest(verb: string, hostname: string, filename: string, lines: seq<string>)
    returns (r: Option<Forward>)
    ensures r == Compose(verb, hostname, filename, lines)
  {
    var colon := IndexOf(hostname, ':');
    var host, port;
    if colon < |hostname| {
      host, port := hostname[..colon], hostname[colon + 1..];
    } else {
      host, port := hostname, DefaultPort;
    }
    var hostHdr := HostHdrPrefix + " " + host + "\r\n";
    if !EqualFold(verb, "GET") {
      return None;
    }
    var buf := verb + " " + filename + " " + HttpVersion;
    var i := 0;
    while i < |lines| && lines[i] != "\r\n"
      invariant i <= |lines|
      invariant buf + Headers(lines[i..], hostHdr) == RequestLine(verb, filename) + Headers(lines, hostHdr)
      decreases |lines| - i
    {
      assert lines[i..][1..] == lines[i + 1..];
      buf := buf + RewriteLine(lines[i], hostHdr);
      i := i + 1;
    }
    buf := buf + "\r\n";
    var key := verb + " " + host + ":" + port + " " + filename;
    return Some(Forward(host, port, buf, key));
  }
}
