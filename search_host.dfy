/** The host the site-restricted search is limited to. */
module SearchHost {

  const WwwPrefix := "www."

  predicate HasWwwPrefix(host: string)
  {
    |host| >= |WwwPrefix| && host[..|WwwPrefix|] == WwwPrefix
  }

  /** The host with one leading `www.` dropped, when it has one. */
  function StripWww(host: string): (r: string)
    ensures HasWwwPrefix(host) ==> WwwPrefix + r == host
    ensures !HasWwwPrefix(host) ==> r == host
  {
    if HasWwwPrefix(host) then host[|WwwPrefix|..] else host
  }

  /**
    Exactly the four characters of one `www.` are dropped: a host that had the
    prefix twice keeps the second one.
   */
  lemma StripWwwOnce(rest: string)
    ensures StripWww(WwwPrefix + rest) == rest
    ensures StripWww(WwwPrefix + WwwPrefix + rest) == WwwPrefix + rest
  {
    assert (WwwPrefix + rest)[..|WwwPrefix|] == WwwPrefix;
    assert (WwwPrefix + WwwPrefix + rest)[..|WwwPrefix|] == WwwPrefix;
    assert (WwwPrefix + WwwPrefix + rest)[|WwwPrefix|..] == WwwPrefix + rest;
  }
}
