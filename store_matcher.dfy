/** The `StoreMatcher` class (src/StoreMatcher.php): its two static cache fields, the
    lookup `match`, the loader, the index builder and the cache reset. The static
    fields become the fields of one object, and the files the loader would `require`
    are passed in: `None` for a file that does not exist, `Some(c)` for what it returns. */
module Matcher {
  import opened Wrappers
  import opened HostConfig
  import opened HostMap

  /** `$params['HTTP_HOST'] ?? ''`. */
  function HttpHost(params: map<string, string>): string
  {
    if "HTTP_HOST" in params then params["HTTP_HOST"] else ""
  }

  /** The params after a lookup: on a hit the run type and the run code keys are set
      and nothing else changes; on a miss the params are returned as they were. */
  function WriteBack(params: map<string, string>, runTypeKey: string, runCodeKey: string,
                     found: Option<Entry>): (r: map<string, string>)
    ensures found.None? ==> r == params
    ensures found.Some? ==>
              && r.Keys == params.Keys + {runTypeKey, runCodeKey}
              && r[runCodeKey] == found.value.code
              && (runTypeKey != runCodeKey ==> r[runTypeKey] == found.value.kind.Name())
              && forall k :: k in params && k != runTypeKey && k != runCodeKey ==> r[k] == params[k]
  {
    match found
    case None => params
    case Some(e) => params[runTypeKey := e.kind.Name()][runCodeKey := e.code]
  }

  /** The inner loop of the store pass: every host of one store code is written,
      overwriting what was there. */
  method WriteStoreHosts(m: map<string, Entry>, hosts: seq<string>, code: string)
    returns (r: map<string, Entry>)
    ensures r == m + Claim(hosts, Entry(Store, code))
  {
    r := m;
    var j := 0;
    assert m + Claim(hosts[..0], Entry(Store, code)) == m;
    while j < |hosts|
      invariant 0 <= j <= |hosts|
      invariant r == m + Claim(hosts[..j], Entry(Store, code))
    {
      ClaimStep(m, hosts, j, Entry(Store, code));
      r := r[hosts[j] := Entry(Store, code)];
      j := j + 1;
    }
    assert hosts[..j] == hosts;
  }

  /** The inner loop of the website pass: a host of one website code is written only
      if it has no entry yet (`isset`). */
  method WriteWebsiteHosts(m: map<string, Entry>, hosts: seq<string>, code: string)
    returns (r: map<string, Entry>)
    ensures r == m + ClaimFree(m, hosts, Entry(Website, code))
  {
    r := m;
    var j := 0;
    assert m + ClaimFree(m, hosts[..0], Entry(Website, code)) == m;
    while j < |hosts|
      invariant 0 <= j <= |hosts|
      invariant r == m + ClaimFree(m, hosts[..j], Entry(Website, code))
    {
      ClaimFreeStep(m, hosts, j, Entry(Website, code));
      if hosts[j] !in r {
        r := r[hosts[j] := Entry(Website, code)];
      }
      j := j + 1;
    }
    assert hosts[..j] == hosts;
  }

  class StoreMatcher {
    /** `self::$config`: `None` until loaded and after a reset. */
    var config: Option<PhpConfig>
    /** `self::$hostMap`: `None` until built and after a reset. */
    var hostMap: Option<map<string, Entry>>
    /** `StoreManager::PARAM_RUN_TYPE` and `StoreManager::PARAM_RUN_CODE`. */
    const runTypeKey: string
    const runCodeKey: string

    /** Between calls the two caches are both absent (`null`), or both present with the host map
        built from the configuration. */
    ghost predicate Valid()
      reads this
    {
      && (config.None? <==> hostMap.None?)
      && (hostMap.Some? ==> hostMap.value == HostMapOf(config.value))
    }

    /** The static fields start as `null`. */
    constructor (runTypeKey: string, runCodeKey: string)
      ensures Valid() && config.None? && hostMap.None?
      ensures this.runTypeKey == runTypeKey && this.runCodeKey == runCodeKey
    {
      config := None;
      hostMap := None;
      this.runTypeKey := runTypeKey;
      this.runCodeKey := runCodeKey;
    }

    /** `match`: resolve the request's host and write the scope into the params. An
        empty host changes nothing; otherwise the caches are filled if no host map is cached (`null`),
        and only then are the files read. */
    method Match(params: map<string, string>, baseFile: Option<PhpConfig>, localFile: Option<PhpConfig>)
      returns (result: map<string, string>)
      requires Valid()
      modifies this
      ensures Valid()
      ensures HttpHost(params) == "" ==> result == params && config == old(config) && hostMap == old(hostMap)
      ensures HttpHost(params) != "" && old(hostMap).Some? ==> config == old(config) && hostMap == old(hostMap)
      ensures HttpHost(params) != "" && old(hostMap).None? ==>
                config == Some(LoadedConfig(baseFile, localFile))
      ensures HttpHost(params) != "" ==>
                config.Some? && result == WriteBack(params, runTypeKey, runCodeKey, Resolve(config.value, HttpHost(params)))
    {
      var httpHost := HttpHost(params);
      if httpHost == "" {
        return params;
      }
      if hostMap.None? {
        LoadConfig(baseFile, localFile);
        BuildHostMap();
      }
      HostMapResolves(config.value, httpHost);
      result := params;
      if httpHost in hostMap.value {
        var entry := hostMap.value[httpHost];
        result := result[runTypeKey := entry.kind.Name()];
        result := result[runCodeKey := entry.code];
      }
    }

    /** `loadConfig`: a missing base file gives empty sections and the local file is not
        read; otherwise the local file, if it exists, is merged over the base. */
    method LoadConfig(baseFile: Option<PhpConfig>, localFile: Option<PhpConfig>)
      modifies this`config
      ensures config == Some(LoadedConfig(baseFile, localFile))
    {
      if baseFile.None? {
        config := Some(EmptyConfig);
        return;
      }
      config := baseFile;
      if localFile.Some? {
        config := Some(MergeConfig(config.value, localFile.value));
      }
    }

    /** `buildHostMap`: the store pass writes every host of every store code; the
        website pass then writes a host only if it has no entry yet. */
    method BuildHostMap()
      modifies this`hostMap
      ensures hostMap == Some(HostMapOf(config.GetOr(PhpConfig(None, None))))
    {
      var cfg := config.GetOr(PhpConfig(None, None));
      var m: map<string, Entry> := map[];

      var stores := SectionOf(cfg.store);
      var i := 0;
      while i < |stores|
        invariant 0 <= i <= |stores|
        invariant m == StoreIndex(stores[..i])
      {
        m := WriteStoreHosts(m, stores[i].1, stores[i].0);
        StoreIndexStep(stores, i);
        i := i + 1;
      }
      assert stores[..i] == stores;

      var websites := SectionOf(cfg.website);
      ghost var storeMap := m;
      i := 0;
      while i < |websites|
        invariant 0 <= i <= |websites|
        invariant m == WebsitePass(storeMap, websites[..i])
      {
        m := WriteWebsiteHosts(m, websites[i].1, websites[i].0);
        WebsitePassStep(storeMap, websites, i);
        i := i + 1;
      }
      assert websites[..i] == websites;
      hostMap := Some(m);
    }

    /** `resetConfig`: both caches are discarded, so the next lookup with a host loads
        and builds again. */
    method ResetConfig()
      modifies this
      ensures Valid() && config.None? && hostMap.None?
    {
      config := None;
      hostMap := None;
    }
  }

  // ---- How a caller sees the cache ----

  /** Once a lookup with a host has filled the caches, a later lookup uses the
      configuration of that first load, whatever files it is given. */
  method SecondMatchUsesFirstLoad(runTypeKey: string, runCodeKey: string,
                                  first: map<string, string>, firstBase: Option<PhpConfig>, firstLocal: Option<PhpConfig>,
                                  second: map<string, string>, laterBase: Option<PhpConfig>, laterLocal: Option<PhpConfig>)
    returns (r: map<string, string>)
    requires HttpHost(first) != "" && HttpHost(second) != ""
    ensures r == WriteBack(second, runTypeKey, runCodeKey,
                           Resolve(LoadedConfig(firstBase, firstLocal), HttpHost(second)))
  {
    var m := new StoreMatcher(runTypeKey, runCodeKey);
    var _ := m.Match(first, firstBase, firstLocal);
    r := m.Match(second, laterBase, laterLocal);
  }

  /** A lookup without a host leaves the caches absent (`null`), so the first lookup with a host
      still loads the files it is given. */
  method EmptyHostDoesNotLoad(runTypeKey: string, runCodeKey: string,
                              noHost: map<string, string>, ignoredBase: Option<PhpConfig>, ignoredLocal: Option<PhpConfig>,
                              params: map<string, string>, baseFile: Option<PhpConfig>, localFile: Option<PhpConfig>)
    returns (r0: map<string, string>, r: map<string, string>)
    requires HttpHost(noHost) == "" && HttpHost(params) != ""
    ensures r0 == noHost
    ensures r == WriteBack(params, runTypeKey, runCodeKey, Resolve(LoadedConfig(baseFile, localFile), HttpHost(params)))
  {
    var m := new StoreMatcher(runTypeKey, runCodeKey);
    r0 := m.Match(noHost, ignoredBase, ignoredLocal);
    r := m.Match(params, baseFile, localFile);
  }

  /** After a reset the next lookup with a host loads the files it is given. */
  method ResetReloads(runTypeKey: string, runCodeKey: string,
                      first: map<string, string>, firstBase: Option<PhpConfig>, firstLocal: Option<PhpConfig>,
                      second: map<string, string>, laterBase: Option<PhpConfig>, laterLocal: Option<PhpConfig>)
    returns (r: map<string, string>)
    requires HttpHost(second) != ""
    ensures r == WriteBack(second, runTypeKey, runCodeKey,
                           Resolve(LoadedConfig(laterBase, laterLocal), HttpHost(second)))
  {
    var m := new StoreMatcher(runTypeKey, runCodeKey);
    var _ := m.Match(first, firstBase, firstLocal);
    m.ResetConfig();
    r := m.Match(second, laterBase, laterLocal);
  }

  /** Without a base file at the first load, that lookup and every later one leave
      the params as they were, whatever files the later lookups are given. */
  method MissingBaseChangesNothing(runTypeKey: string, runCodeKey: string,
                                   first: map<string, string>, localFile: Option<PhpConfig>,
                                   later: seq<(map<string, string>, Option<PhpConfig>, Option<PhpConfig>)>)
    returns (r1: map<string, string>, rs: seq<map<string, string>>)
    requires HttpHost(first) != ""
    ensures r1 == first
    ensures |rs| == |later| && forall k :: 0 <= k < |later| ==> rs[k] == later[k].0
  {
    var m := new StoreMatcher(runTypeKey, runCodeKey);
    r1 := m.Match(first, None, localFile);
    rs := [];
    var k := 0;
    while k < |later|
      invariant 0 <= k <= |later|
      invariant m.Valid() && m.config == Some(EmptyConfig)
      invariant |rs| == k && forall i :: 0 <= i < k ==> rs[i] == later[i].0
    {
      var (params, baseFile, local) := later[k];
      var r := m.Match(params, baseFile, local);
      rs := rs + [r];
      k := k + 1;
    }
  }
}
