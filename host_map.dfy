/** The reverse index from host to run scope that `buildHostMap` builds
    (src/StoreMatcher.php:92-112), specified twice: once as the two passes the code
    makes (stores, then websites), and once declaratively by which code claims a host. */
module HostMap {
  import opened Wrappers
  import opened HostConfig

  /** The run type written back on a match: the literal `'store'` or `'website'`. */
  datatype Kind = Store | Website {
    function Name(): string
    {
      match this
      case Store => "store"
      case Website => "website"
    }
  }

  /** A value of the host map: the pair `[$type, $code]`. */
  datatype Entry = Entry(kind: Kind, code: string)

  /** `isset($hostMap[$host]) ? $hostMap[$host] : null`. */
  function Get(m: map<string, Entry>, host: string): Option<Entry>
  {
    if host in m then Some(m[host]) else None
  }

  // ---- The two passes, as the code makes them ----

  /** Every host of `hosts` mapped to the same entry. */
  function Claim(hosts: seq<string>, e: Entry): map<string, Entry>
  {
    map h | h in hosts :: e
  }

  /** The hosts of `hosts` that `m` has no entry for, mapped to the same entry. */
  function ClaimFree(m: map<string, Entry>, hosts: seq<string>, e: Entry): map<string, Entry>
  {
    map h | h in hosts && h !in m :: e
  }

  /** The map after the store pass over the codes of `s`: every host of every code is
      written, so a later code overwrites an earlier one. */
  function StoreIndex(s: seq<(string, seq<string>)>): map<string, Entry>
    decreases |s|
  {
    if s == [] then map[]
    else
      var last := s[|s| - 1];
      StoreIndex(s[..|s| - 1]) + Claim(last.1, Entry(Store, last.0))
  }

  /** The map after the website pass over the codes of `s`, starting from `m`: a host is
      written only when it has no entry yet. */
  function WebsitePass(m: map<string, Entry>, s: seq<(string, seq<string>)>): map<string, Entry>
    decreases |s|
  {
    if s == [] then m
    else
      var prev := WebsitePass(m, s[..|s| - 1]);
      var last := s[|s| - 1];
      prev + ClaimFree(prev, last.1, Entry(Website, last.0))
  }

  /** Writing one more host of a store code extends the claim by that host. */
  lemma ClaimStep(done: map<string, Entry>, hosts: seq<string>, j: nat, e: Entry)
    requires j < |hosts|
    ensures (done + Claim(hosts[..j], e))[hosts[j] := e] == done + Claim(hosts[..j + 1], e)
  {
    assert hosts[..j + 1] == hosts[..j] + [hosts[j]];
  }

  /** Writing one more host of a website code, guarded by `isset`, extends the claim on
      free hosts by that host if it is free. */
  lemma ClaimFreeStep(prev: map<string, Entry>, hosts: seq<string>, j: nat, e: Entry)
    requires j < |hosts|
    ensures var cur := prev + ClaimFree(prev, hosts[..j], e);
            (if hosts[j] in cur then cur else cur[hosts[j] := e]) == prev + ClaimFree(prev, hosts[..j + 1], e)
  {
    assert hosts[..j + 1] == hosts[..j] + [hosts[j]];
  }

  /** The store pass over one more code. */
  lemma StoreIndexStep(s: seq<(string, seq<string>)>, i: nat)
    requires i < |s|
    ensures StoreIndex(s[..i + 1]) == StoreIndex(s[..i]) + Claim(s[i].1, Entry(Store, s[i].0))
  {
    assert s[..i + 1][..i] == s[..i];
  }

  /** The website pass over one more code. */
  lemma WebsitePassStep(m: map<string, Entry>, s: seq<(string, seq<string>)>, i: nat)
    requires i < |s|
    ensures var prev := WebsitePass(m, s[..i]);
            WebsitePass(m, s[..i + 1]) == prev + ClaimFree(prev, s[i].1, Entry(Website, s[i].0))
  {
    assert s[..i + 1][..i] == s[..i];
  }

  /** The host map built from a configuration; a missing section is empty. */
  function HostMapOf(cfg: PhpConfig): map<string, Entry>
  {
    WebsitePass(StoreIndex(SectionOf(cfg.store)), SectionOf(cfg.website))
  }

  // ---- Which code claims a host, declaratively ----

  /** Some code of `s` lists `host`. */
  predicate Listed(s: seq<(string, seq<string>)>, host: string)
  {
    exists i :: 0 <= i < |s| && host in s[i].1
  }

  /** Every host listed in `s`. */
  function HostsOf(s: seq<(string, seq<string>)>): set<string>
  {
    set i, h | 0 <= i < |s| && h in s[i].1 :: h
  }

  /** The last code of `s` whose list contains `host`. */
  function LastListing(s: seq<(string, seq<string>)>, host: string): Option<string>
    decreases |s|
  {
    if s == [] then None
    else if host in s[|s| - 1].1 then Some(s[|s| - 1].0)
    else LastListing(s[..|s| - 1], host)
  }

  /** The first code of `s` whose list contains `host`. */
  function FirstListing(s: seq<(string, seq<string>)>, host: string): Option<string>
    decreases |s|
  {
    if s == [] then None
    else if host in s[0].1 then Some(s[0].0)
    else FirstListing(s[1..], host)
  }

  /** The scope a host resolves to: the last store that lists it, else the first
      website that lists it, else none. */
  function Resolve(cfg: PhpConfig, host: string): Option<Entry>
  {
    match LastListing(SectionOf(cfg.store), host)
    case Some(c) => Some(Entry(Store, c))
    case None =>
      match FirstListing(SectionOf(cfg.website), host)
      case Some(c) => Some(Entry(Website, c))
      case None => None
  }

  // ---- Properties ----

  /** `LastListing` finds a code exactly when the host is listed, and the code it finds
      lists the host while no later code does. */
  lemma {:induction false} LastListingIsLast(s: seq<(string, seq<string>)>, host: string)
    ensures LastListing(s, host).Some? <==> Listed(s, host)
    ensures LastListing(s, host).Some? ==>
              exists i :: 0 <= i < |s| && s[i].0 == LastListing(s, host).value && host in s[i].1
                          && forall j :: i < j < |s| ==> host !in s[j].1
    decreases |s|
  {
    if s != [] {
      var init := s[..|s| - 1];
      LastListingIsLast(init, host);
      if host !in s[|s| - 1].1 {
        if Listed(s, host) {
          var k :| 0 <= k < |s| && host in s[k].1;
          assert init[k] == s[k];
        }
        if LastListing(init, host).Some? {
          var i :| 0 <= i < |init| && init[i].0 == LastListing(init, host).value && host in init[i].1
                   && forall j :: i < j < |init| ==> host !in init[j].1;
          assert s[i] == init[i];
          forall j | i < j < |s| ensures host !in s[j].1 {
            if j < |s| - 1 { assert s[j] == init[j]; }
          }
        }
      }
    }
  }

  /** `FirstListing` finds a code exactly when the host is listed, and the code it finds
      lists the host while no earlier code does. */
  lemma {:induction false} FirstListingIsFirst(s: seq<(string, seq<string>)>, host: string)
    ensures FirstListing(s, host).Some? <==> Listed(s, host)
    ensures FirstListing(s, host).Some? ==>
              exists i :: 0 <= i < |s| && s[i].0 == FirstListing(s, host).value && host in s[i].1
                          && forall j :: 0 <= j < i ==> host !in s[j].1
    decreases |s|
  {
    if s != [] {
      var rest := s[1..];
      FirstListingIsFirst(rest, host);
      if host !in s[0].1 {
        if Listed(s, host) {
          var k :| 0 <= k < |s| && host in s[k].1;
          assert rest[k - 1] == s[k];
        }
        if FirstListing(rest, host).Some? {
          var i :| 0 <= i < |rest| && rest[i].0 == FirstListing(rest, host).value && host in rest[i].1
                   && forall j :: 0 <= j < i ==> host !in rest[j].1;
          assert s[i + 1] == rest[i];
          forall j | 0 <= j < i + 1 ensures host !in s[j].1 {
            if j > 0 { assert s[j] == rest[j - 1]; }
          }
        }
      }
    }
  }

  /** After the store pass a host has an entry exactly when some store lists it, and the
      entry is the last such store. */
  lemma {:induction false} StoreIndexClaims(s: seq<(string, seq<string>)>, host: string)
    ensures Get(StoreIndex(s), host) == match LastListing(s, host)
                                         case Some(c) => Some(Entry(Store, c))
                                         case None => None
    decreases |s|
  {
    if s != [] {
      StoreIndexClaims(s[..|s| - 1], host);
    }
  }

  /** The website pass never changes an entry it starts with, and gives a host without
      one the first website that lists it. */
  lemma {:induction false} WebsitePassClaims(m: map<string, Entry>, s: seq<(string, seq<string>)>, host: string)
    ensures Get(WebsitePass(m, s), host) == if host in m then Some(m[host]) else
                                              match FirstListing(s, host)
                                              case Some(c) => Some(Entry(Website, c))
                                              case None => None
    decreases |s|
  {
    if s != [] {
      var init := s[..|s| - 1];
      WebsitePassClaims(m, init, host);
      FirstOfInit(s, host);
    }
  }

  /** `FirstListing` of a sequence in terms of its prefix without the last code. */
  lemma {:induction false} FirstOfInit(s: seq<(string, seq<string>)>, host: string)
    requires s != []
    ensures FirstListing(s, host) == match FirstListing(s[..|s| - 1], host)
                                      case Some(c) => Some(c)
                                      case None => if host in s[|s| - 1].1 then Some(s[|s| - 1].0) else None
    decreases |s|
  {
    if |s| > 1 {
      var rest := s[1..];
      FirstOfInit(rest, host);
      assert rest[..|rest| - 1] == s[..|s| - 1][1..];
    }
  }

  /** The host map built by the two passes gives every host the scope `Resolve` gives
      it: stores take priority, the last store wins among stores, the first website
      wins among websites, and an unlisted host has no entry. */
  lemma HostMapResolves(cfg: PhpConfig, host: string)
    ensures Get(HostMapOf(cfg), host) == Resolve(cfg, host)
  {
    StoreIndexClaims(SectionOf(cfg.store), host);
    WebsitePassClaims(StoreIndex(SectionOf(cfg.store)), SectionOf(cfg.website), host);
  }

  /** The hosts of the map are exactly the hosts listed under `store` and under
      `website`. */
  lemma HostMapKeys(cfg: PhpConfig)
    ensures HostMapOf(cfg).Keys == HostsOf(SectionOf(cfg.store)) + HostsOf(SectionOf(cfg.website))
  {
    var stores, websites := SectionOf(cfg.store), SectionOf(cfg.website);
    forall host | true
      ensures host in HostMapOf(cfg) <==> host in HostsOf(stores) || host in HostsOf(websites)
    {
      HostMapResolves(cfg, host);
      LastListingIsLast(stores, host);
      FirstListingIsFirst(websites, host);
      ListedHosts(stores, host);
      ListedHosts(websites, host);
    }
  }

  /** `HostsOf` collects exactly the listed hosts. */
  lemma ListedHosts(s: seq<(string, seq<string>)>, host: string)
    ensures host in HostsOf(s) <==> Listed(s, host)
  {
    if Listed(s, host) {
      var i :| 0 <= i < |s| && host in s[i].1;
      assert host in HostsOf(s);
    }
  }

  /** A host that some store lists maps to the last store code that lists it, whatever
      the websites list. */
  lemma StoreWins(cfg: PhpConfig, host: string)
    requires Listed(SectionOf(cfg.store), host)
    ensures host in HostMapOf(cfg)
    ensures var e := HostMapOf(cfg)[host];
            var s := SectionOf(cfg.store);
            && e.kind == Store
            && exists i :: 0 <= i < |s| && s[i].0 == e.code && host in s[i].1
                           && forall j :: i < j < |s| ==> host !in s[j].1
  {
    HostMapResolves(cfg, host);
    LastListingIsLast(SectionOf(cfg.store), host);
  }

  /** A host that no store lists but some website does maps to the first website code
      that lists it. */
  lemma WebsiteFallback(cfg: PhpConfig, host: string)
    requires !Listed(SectionOf(cfg.store), host) && Listed(SectionOf(cfg.website), host)
    ensures host in HostMapOf(cfg)
    ensures var e := HostMapOf(cfg)[host];
            var w := SectionOf(cfg.website);
            && e.kind == Website
            && exists i :: 0 <= i < |w| && w[i].0 == e.code && host in w[i].1
                           && forall j :: 0 <= j < i ==> host !in w[j].1
  {
    HostMapResolves(cfg, host);
    LastListingIsLast(SectionOf(cfg.store), host);
    FirstListingIsFirst(SectionOf(cfg.website), host);
  }

  /** A missing base file gives an empty host map, whatever the local file holds. */
  lemma MissingBaseMapsNothing(localFile: Option<PhpConfig>)
    ensures HostMapOf(LoadedConfig(None, localFile)) == map[]
  {
  }

  /** The example of store priority: with store `a` and website `b` both listing
      `x.test`, the host resolves to store `a`. */
  lemma StorePriorityExample()
    ensures Resolve(PhpConfig(Some([("a", ["x.test"])]), Some([("b", ["x.test"])])), "x.test")
         == Some(Entry(Store, "a"))
  {
  }
}
