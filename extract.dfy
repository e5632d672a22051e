/** `get_domain` (mxsniffer/__init__.py:29-48): the domain of an email
    address, a URL or a bare domain name.

    The two library parsers it calls are parameters: `parseAddr` gives the
    address half of `email.utils.parseaddr` (address syntax of section 3.4
    of RFC 5322), `netloc` gives the `netloc` of `urlparse` (the authority
    of section 3.2 of RFC 3986). Nothing is assumed about either; only the
    code's own branch order and post-processing are modelled. */
module Extract {
  import opened Text

  function GetDomain(input: string, parseAddr: string -> string, netloc: string -> string): (domain: string)
    // email branch: after the first '@' of the parsed address, or all of it
    ensures '@' in input && '@' in parseAddr(input) ==>
              var addr := parseAddr(input);
              exists k :: 0 <= k < |addr| && addr[k] == '@' && '@' !in addr[..k] && domain == addr[k + 1..]
    ensures '@' in input && '@' !in parseAddr(input) ==> domain == parseAddr(input)
    // URL branch: the netloc up to its first ':'
    ensures '@' !in input && HasDoubleSlash(input) ==>
              domain <= netloc(input) && ':' !in domain
              && (domain == netloc(input) || netloc(input)[|domain|] == ':')
    // bare branch: unchanged
    ensures '@' !in input && !HasDoubleSlash(input) ==> domain == input
  {
    if '@' in input then AfterFirst(parseAddr(input), '@')
    else if HasDoubleSlash(input) then CutAt(netloc(input), ':')
    else input
  }

  /** An address `local@rest` whose local part holds no '@' yields `rest`,
      whatever display name surrounded it in the input. */
  lemma EmailDomain(input: string, parseAddr: string -> string, netloc: string -> string,
                    local: string, rest: string)
    requires '@' in input
    requires parseAddr(input) == local + "@" + rest && '@' !in local
    ensures GetDomain(input, parseAddr, netloc) == rest
  {
    var addr := parseAddr(input);
    assert addr[|local|] == '@';
    assert addr[..|local|] == local;
    assert addr[|local| + 1..] == rest;
  }

  /** A URL whose netloc is `host:port` yields `host`. */
  lemma UrlDropsPort(input: string, parseAddr: string -> string, netloc: string -> string,
                     host: string, port: string)
    requires '@' !in input && HasDoubleSlash(input)
    requires netloc(input) == host + ":" + port && ':' !in host
    ensures GetDomain(input, parseAddr, netloc) == host
  {
    var n := netloc(input);
    assert n[|host|] == ':';
    assert n[..|host|] == host;
  }

  /** The documented examples of mxsniffer/__init__.py:33-38; for the
      first two the parsers are taken to behave as the standard library does
      on these inputs. */
  lemma EmailExample(parseAddr: string -> string, netloc: string -> string)
    requires parseAddr("example@example.com") == "example@example.com"
    ensures GetDomain("example@example.com", parseAddr, netloc) == "example.com"
  {
    var input := "example@example.com";
    assert input[7] == '@';
    EmailDomain(input, parseAddr, netloc, "example", "example.com");
  }

  lemma UrlExample(parseAddr: string -> string, netloc: string -> string)
    requires netloc("http://www.example.com") == "www.example.com"
    ensures GetDomain("http://www.example.com", parseAddr, netloc) == "www.example.com"
  {
    var url := "http://www.example.com";
    assert '@' !in url;
    assert url[5] == '/' && url[6] == '/';
    assert ':' !in "www.example.com";
  }

  lemma BareExample(parseAddr: string -> string, netloc: string -> string)
    ensures GetDomain("example.com", parseAddr, netloc) == "example.com"
  {
    var bare := "example.com";
    assert '@' !in bare;
    assert !HasDoubleSlash(bare);
  }
}
