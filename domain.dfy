/**
 * `checkDomain` (background.js:6-15): whether a download comes from the
 * target site. URL parsing belongs to the browser and is a parameter here.
 */
module Domain {
  import opened Wrappers

  /** Line 2. */
  const TargetDomain: string := "www.gutenberg.org"

  predicate EndsWith(s: string, suffix: string) {
    |suffix| <= |s| && s[|s| - |suffix|..] == suffix
  }

  /** Line 10: the hostname is the target domain or ends with "." + the target domain. */
  predicate IsTargetHost(host: string)
    ensures IsTargetHost(host) ==> EndsWith(host, TargetDomain)
    ensures IsTargetHost(host) && host != TargetDomain ==>
      |host| > |TargetDomain| && host[|host| - |TargetDomain| - 1] == '.'
  {
    var suffix := "." + TargetDomain;
    assert EndsWith(host, suffix) ==> host[|host| - |TargetDomain|..] == suffix[1..] == TargetDomain;
    host == TargetDomain || EndsWith(host, suffix)
  }

  /** Reference reading of line 10: the target itself, or some (possibly
      empty) label sequence followed by a dot and the target. */
  ghost predicate SelfOrSubdomain(host: string) {
    host == TargetDomain || exists labels: string :: host == labels + "." + TargetDomain
  }

  lemma TargetHostIff(host: string)
    ensures IsTargetHost(host) <==> SelfOrSubdomain(host)
  {
    var suffix := "." + TargetDomain;
    if EndsWith(host, suffix) {
      var labels := host[..|host| - |suffix|];
      assert host == labels + "." + TargetDomain;
    }
    if host != TargetDomain && SelfOrSubdomain(host) {
      var labels: string :| host == labels + "." + TargetDomain;
      assert host[|host| - |suffix|..] == suffix;
    }
  }

  /** `checkDomain(downloadUrl)`: `hostOf` stands for `new URL(url).hostname`,
      `None` when the constructor throws. It fails closed: an unparsable URL is
      never on the target site. */
  function CheckDomain(url: string, hostOf: string -> Option<string>): (ok: bool)
    ensures hostOf(url).None? ==> !ok
    ensures hostOf(url).Some? ==> (ok <==> SelfOrSubdomain(hostOf(url).value))
  {
    match hostOf(url)
    case None => false
    case Some(host) => TargetHostIff(host); IsTargetHost(host)
  }

  /** A host that merely ends with the target's letters, without the dot
      before them ("evilwww.gutenberg.org"), is rejected. */
  lemma LookalikeHostRejected(prefix: string)
    requires prefix != [] && prefix[|prefix| - 1] != '.'
    ensures !IsTargetHost(prefix + TargetDomain)
  {
    var host := prefix + TargetDomain;
    var suffix := "." + TargetDomain;
    assert host[|host| - |suffix|] == prefix[|prefix| - 1];
  }

  /** The target's parent domain and unrelated hosts are rejected; subdomains are accepted. */
  lemma HostExamples()
    ensures IsTargetHost("www.gutenberg.org")
    ensures IsTargetHost("sub.www.gutenberg.org")
    ensures !IsTargetHost("gutenberg.org")
    ensures !IsTargetHost("evil.com")
  {
    var sub := "sub.www.gutenberg.org";
    assert sub[|sub| - |"." + TargetDomain|..] == "." + TargetDomain;
  }
}
