# StoreMatcher, modelled in Dafny

A model of `StoreMatcher` (src/StoreMatcher.php), the class that resolves an HTTP host
to a Magento run scope, a store code or a website code, and writes that scope into the
request parameters. The model covers its four parts:

- **Configuration layering** (`loadConfig`). A missing base file gives empty `store` and
  `website` sections and the local file is not read. Otherwise the base file's array is
  used, and a `store-hosts.local.php` beside it, when it exists, is merged over it with
  `array_replace_recursive`. The merge is modelled as PHP performs it. A code found in
  both files has its host lists merged **by index**: base `['p', 'q']` with override
  `['r']` gives `['r', 'q']`. Codes found only in the base keep their place, and codes
  found only in the override are appended in the override's order. A shared code's
  host list is not replaced as a whole: `array_replace_recursive` writes the override's
  hosts over the base's by index (src/StoreMatcher.php:83).
- **Reverse index** (`buildHostMap`). The store pass writes every host of every store
  code, so the last store code to list a host wins. The website pass then writes a host
  only if it has no entry yet, so the first website code to list it wins and websites
  never override stores. A missing `store` or `website` key reads as empty.
- **Lookup and write-back** (`match`). `HTTP_HOST` is read from the params map, and a
  missing or empty host returns the params untouched without touching the caches.
  The files are loaded and the index is built only when no host map is cached (the field
  is `null`). An empty host map, which is what a missing base file leaves, is cached like
  any other and does not cause a reload.
  On a hit, exactly the run-type and run-code keys are set; on a miss the params come
  back unchanged.
- **Cache reset** (`resetConfig`). Both caches are set back to `null`, so the next
  lookup with a host loads and builds again.

Layout:

- `wrappers.dfy`: module `Wrappers`, an `Option` type. `None` stands for PHP's `null`
  and for a file that does not exist.
- `host_config.dfy`: module `HostConfig`. It holds the configuration as ordered sections
  of `(code, hosts)` entries with distinct codes, `array_replace_recursive` on host lists
  (`MergeHosts`), on sections (`MergeSection`) and on whole configurations
  (`MergeConfig`), the loader's result (`LoadedConfig`), and the merge lemmas.
- `host_map.dfy`: module `HostMap`. It specifies the host map twice: as the two passes
  the code makes (`StoreIndex`, `WebsitePass`, `HostMapOf`), and declaratively by which
  code claims a host (`LastListing`, `FirstListing`, `Resolve`). Lemmas prove that the
  two agree.
- `store_matcher.dfy`: module `Matcher`. Class `StoreMatcher` holds the two static cache
  fields as object fields and has the methods `Match`, `LoadConfig`, `BuildHostMap` and
  `ResetConfig`. The inner `foreach` loops of `buildHostMap` are the module-level
  methods `WriteStoreHosts` and `WriteWebsiteHosts`. Four module-level client methods,
  `SecondMatchUsesFirstLoad`, `EmptyHostDoesNotLoad`, `ResetReloads` and
  `MissingBaseChangesNothing`, each build a fresh matcher, call it several times, and
  prove what the cache promises across those calls.

The files the loader would `require` are inputs to `Match` and `LoadConfig`. `None`
means the file does not exist; `Some(c)` is the array the file returns. The names of
the run-type and run-code keys (`StoreManager::PARAM_RUN_TYPE` and
`StoreManager::PARAM_RUN_CODE`) are passed to the constructor.

## Model

| member | source | states |
|---|---|---|
| HostConfig.Find | src/StoreMatcher.php:83 | finds the position of a code in a section, or proves no entry has that code |
| HostConfig.Lookup | src/StoreMatcher.php:83 | the lookup of a code is absent exactly when no entry has the code, and otherwise gives that entry's hosts |
| HostConfig.MergeHosts | src/StoreMatcher.php:83 | merging host lists by index: the result is as long as the longer list, holds the override's hosts at the override's indices, and holds the base's hosts beyond them |
| HostConfig.MergeSectionLookup | src/StoreMatcher.php:80-84 | under every code, the merged section holds the base's list if only the base has the code, the override's list if only the override has it, and the two lists merged by index if both have it |
| HostConfig.MergeSectionCodes | src/StoreMatcher.php:83 | the merged section lists the base's codes in their old order, followed by the override-only codes in the override's order |
| HostConfig.Put | src/StoreMatcher.php:83 | one step of the merge over a section; specified by `PutLookup` and `PutCodes`: only the lookup of the put code changes, and a new code is appended |
| HostConfig.MergeSection | src/StoreMatcher.php:83 | the merge over a section; specified by `MergeSectionLookup` and `MergeSectionCodes` |
| HostConfig.MergeConfig | src/StoreMatcher.php:83 | the merge over a whole configuration, a top-level key found in one file only keeping that file's section; specified by `LoadedConfigLookup` |
| HostConfig.LoadedConfig | src/StoreMatcher.php:66-85 | the configuration `loadConfig` leaves; specified by `LoadedConfigLookup` |
| HostConfig.LoadedConfigLookup | src/StoreMatcher.php:66-85 | a missing base file gives empty sections whatever the local file holds; otherwise each section holds, under every code, the base and local entries merged, with a missing file or key holding nothing |
| HostConfig.MergeHostsByIndex | src/StoreMatcher.php:83 | base `['p','q']` merged with override `['r']` gives `['r','q']` |
| HostMap.Kind.Name | src/StoreMatcher.php:99-108 | the run type literals `'store'` and `'website'` written into a host map entry |
| HostMap.StoreIndex | src/StoreMatcher.php:94-101 | the map after the store pass; specified by `StoreIndexClaims` |
| HostMap.WebsitePass | src/StoreMatcher.php:103-111 | the map after the website pass; specified by `WebsitePassClaims` |
| HostMap.HostMapOf | src/StoreMatcher.php:92-112 | the map `buildHostMap` builds; specified by `HostMapResolves` and `HostMapKeys` |
| HostMap.LastListingIsLast | src/StoreMatcher.php:97-101 | a store code is found exactly when some store lists the host; that code lists the host and no later store code does |
| HostMap.FirstListingIsFirst | src/StoreMatcher.php:104-111 | a website code is found exactly when some website lists the host; that code lists the host and no earlier website code does |
| HostMap.StoreIndexClaims | src/StoreMatcher.php:94-101 | after the store pass, a host has an entry exactly when a store lists it, and the entry is `(store, last such code)` |
| HostMap.WebsitePassClaims | src/StoreMatcher.php:103-111 | the website pass keeps every entry it starts with, and gives a host without one `(website, first website code listing it)`, or nothing |
| HostMap.HostMapResolves | src/StoreMatcher.php:92-112 | the built host map gives every host what `Resolve` gives it: the last store listing it, else the first website listing it, else no entry |
| HostMap.HostMapKeys | src/StoreMatcher.php:94-111 | the map's hosts are exactly the union of the hosts listed under `store` and under `website`, with a missing key counting as empty |
| HostMap.StoreWins | src/StoreMatcher.php:97-101 | a host listed by any store maps to `store` and to a store code that lists it with no later store code listing it, whatever the websites list |
| HostMap.WebsiteFallback | src/StoreMatcher.php:104-111 | a host listed by no store but by some website maps to `website` and to the first website code that lists it |
| HostMap.MissingBaseMapsNothing | src/StoreMatcher.php:72-75 | without a base file the host map is empty, whatever the local file holds |
| HostMap.StorePriorityExample | src/StoreMatcher.php:96-111 | with store `a` and website `b` both listing `x.test`, the host resolves to store `a` |
| Matcher.HttpHost | src/StoreMatcher.php:37 | `$params['HTTP_HOST'] ?? ''`; the empty-host case of `Match`'s contract is stated with it |
| Matcher.WriteBack | src/StoreMatcher.php:51-57 | on a hit, the run-code key holds the code, the run-type key holds `store` or `website`, and every other key is kept; on a miss the params are returned unchanged |
| Matcher.WriteStoreHosts | src/StoreMatcher.php:98-100 | the inner store loop gives every host of the code the entry `(store, code)` and keeps all other entries |
| Matcher.WriteWebsiteHosts | src/StoreMatcher.php:105-110 | the inner website loop gives `(website, code)` only to listed hosts that had no entry, and keeps every existing entry |
| Matcher.StoreMatcher.constructor | src/StoreMatcher.php:20-21 | both caches start absent (`null`) |
| Matcher.StoreMatcher.Match | src/StoreMatcher.php:30-58 | an empty or missing host returns the params and leaves both caches as they were; otherwise the files are loaded and the map built only if no map was cached (`null`), and the result is the params written back with the scope that `Resolve` gives the host |
| Matcher.StoreMatcher.LoadConfig | src/StoreMatcher.php:66-85 | the cached configuration becomes the one the two files give |
| Matcher.StoreMatcher.BuildHostMap | src/StoreMatcher.php:92-112 | the cached host map becomes `HostMapOf` the cached configuration |
| Matcher.StoreMatcher.ResetConfig | src/StoreMatcher.php:119-123 | both caches become absent (`null`) and the object invariant holds |
| Matcher.SecondMatchUsesFirstLoad | src/StoreMatcher.php:44-48 | after one lookup with a host, the next lookup answers from the first load's configuration, whatever files it is given |
| Matcher.EmptyHostDoesNotLoad | src/StoreMatcher.php:37-42 | a lookup without a host returns its params, and the first lookup with a host still loads the files it is given |
| Matcher.ResetReloads | src/StoreMatcher.php:119-123 | after a reset, the next lookup with a host answers from the files it is given |
| Matcher.MissingBaseChangesNothing | src/StoreMatcher.php:72-75 | when the base file is missing at first load, that lookup and each of any sequence of later lookups, whatever files they are given, return their params unchanged |

## Left out

- src/install.php: the installer that writes template configuration files. It is only filesystem I/O and messages.
- src/autoload.php: the bootstrap hook that calls `match()` in web requests. It is glue.
- Evaluating files with `require`, `file_exists`, and the paths built with `dirname(__DIR__, 4)` and `dirname($configPath)`: the two files' contents are inputs. An explicit `$configPath` only chooses which files those are.
- Falling back to `$_SERVER` by reference when `$params` is `null` (src/StoreMatcher.php:33-35): params are an explicit map passed in and returned.
- Configuration files of the wrong shape: non-array sections, host lists that are not lists, non-string hosts, and PHP's conversion of numeric-string keys such as `"1"` to integers.
- The values of `StoreManager::PARAM_RUN_TYPE` and `StoreManager::PARAM_RUN_CODE`: they belong to Magento and are constructor parameters here.
- The key order of `$hostMap`: the model uses a Dafny `map`, and the source only ever looks entries up with `isset`.
- Matcher.StoreMatcher.BuildHostMap: this method collects the map in a local variable and stores it in the field once, where PHP writes the static field at each step. No caller can observe the difference. Its two inner `foreach` loops are the methods `WriteStoreHosts` and `WriteWebsiteHosts`.
- Concurrency: the static cache has no lock, and the model is sequential.
