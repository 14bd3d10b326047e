/** The input guard of `src/guard.py`: a URL is trusted when it literally starts
    with the configured host. A `Guard` object only holds the URL it was built
    with, so the model takes that URL as a parameter; being a pure function,
    the check leaves the URL alone and answers the same on every call. */
module Guard {
  import opened Strings
  import opened Constants

  /** `Guard(url).check_input()`: a literal, case-sensitive prefix test,
      without trimming or scheme normalisation. */
  function CheckInput(host: string, url: string): (accepted: bool)
    ensures accepted <==> OccursAt(url, host, 0)
  {
    host <= url
  }

  /** Accepted URLs stay accepted whatever is appended to them. */
  lemma AcceptedExtends(host: string, url: string, suffix: string)
    requires CheckInput(host, url)
    ensures CheckInput(host, url + suffix)
  {
    assert (url + suffix)[..|host|] == url[..|host|];
  }

  /** The concatenation `host + path` built by the scraper always passes. */
  lemma HostPrefixedAccepted(host: string, path: string)
    ensures CheckInput(host, host + path)
  {
    assert (host + path)[..|host|] == host;
  }

  /** The empty string is rejected. */
  lemma EmptyRejected(host: string)
    requires ValidHost(host)
    ensures !CheckInput(host, "")
  {
  }

  /** The guard does not trim: leading whitespace makes a URL fail. */
  lemma LeadingSpaceRejected(host: string, url: string)
    requires ValidHost(host)
    requires |url| > 0 && IsSpace(url[0])
    ensures !CheckInput(host, url)
  {
    assert host[0] == 'h';
  }

  /** The document folder URL is accepted; the same URL without its scheme is not. */
  lemma GuardExamples(host: string)
    requires ValidHost(host)
    ensures CheckInput(host, "https://www.sle.kit.edu/dokumente")
    ensures !CheckInput(host, "www.sle.kit.edu/dokumente")
    ensures !CheckInput(host, "")
  {
    assert host[0] == 'h';
  }
}
