/** The store-hosts configuration and the way a local override file is merged over
    the base file (PHP's `array_replace_recursive`, src/StoreMatcher.php:83).

    A configuration file evaluates to a PHP array with the keys `store` and `website`;
    each of them maps a scope code to the list of hosts of that scope. A PHP array is
    an ordered dictionary, so a section is modelled as the sequence of its
    (code, hosts) entries in insertion order, with no code twice. */
module HostConfig {
  import opened Wrappers

  /** Codes are keys of a PHP array, so no code occurs twice. */
  predicate DistinctCodes(s: seq<(string, seq<string>)>)
  {
    forall i, j :: 0 <= i < j < |s| ==> s[i].0 != s[j].0
  }

  /** The `store` or the `website` part of a configuration: code => list of hosts. */
  type Section = s: seq<(string, seq<string>)> | DistinctCodes(s) witness []

  /** What a configuration file returns. A key the file leaves out is `None`. */
  datatype PhpConfig = PhpConfig(store: Option<Section>, website: Option<Section>)

  /** The configuration used when the base file does not exist (src/StoreMatcher.php:73). */
  const EmptyConfig := PhpConfig(Some([]), Some([]))

  /** `$config['store'] ?? []`: a missing section reads as an empty one. */
  function SectionOf(s: Option<Section>): Section
  {
    s.GetOr([])
  }

  /** The codes of a section, in order. */
  function Codes(s: seq<(string, seq<string>)>): seq<string>
  {
    seq(|s|, i requires 0 <= i < |s| => s[i].0)
  }

  /** The position of `code` in a section, as the hash lookup of a PHP array finds it. */
  function Find(s: seq<(string, seq<string>)>, code: string): (r: Option<nat>)
    ensures r.Some? ==> r.value < |s| && s[r.value].0 == code
    ensures r.None? ==> forall i :: 0 <= i < |s| ==> s[i].0 != code
  {
    if s == [] then None
    else if s[0].0 == code then Some(0)
    else match Find(s[1..], code)
      case Some(i) => Some(i + 1)
      case None => None
  }

  /** The host list stored under `code` (`$section[$code]`), if any. */
  function Lookup(s: Section, code: string): (r: Option<seq<string>>)
    ensures r.None? <==> code !in Codes(s)
    ensures forall i :: 0 <= i < |s| && s[i].0 == code ==> r == Some(s[i].1)
  {
    match Find(s, code)
    case Some(i) => assert Codes(s)[i] == code; Some(s[i].1)
    case None => None
  }

  /** Writing key `i` of a PHP list: an existing key is overwritten in place, the next
      free key is appended. */
  function WriteKey(dest: seq<string>, i: nat, host: string): seq<string>
    requires i <= |dest|
  {
    if i < |dest| then dest[i := host] else dest + [host]
  }

  /** `array_replace_recursive` on two host lists. Both are PHP lists (keys 0, 1, ...),
      so key `i` of the override replaces key `i` of the base, and keys past the end of
      the base are appended. The override's keys are written in order. */
  function MergeHosts(base: seq<string>, over: seq<string>): (r: seq<string>)
    ensures |r| == if |over| <= |base| then |base| else |over|
    ensures forall i :: 0 <= i < |over| ==> r[i] == over[i]
    ensures forall i :: |over| <= i < |base| ==> r[i] == base[i]
    decreases |over|
  {
    if over == [] then base
    else WriteKey(MergeHosts(base, over[..|over| - 1]), |over| - 1, over[|over| - 1])
  }

  /** One step of `array_replace_recursive` on a section: the override's entry for `code`
      is merged into the entry of the same code where there is one (both values are
      arrays, so the merge recurses), and appended otherwise. */
  function Put(acc: Section, code: string, hosts: seq<string>): (r: Section)
  {
    match Find(acc, code)
    case Some(i) => acc[i := (code, MergeHosts(acc[i].1, hosts))]
    case None => acc + [(code, hosts)]
  }

  /** Dropping the first entry of a section leaves a section without its code. */
  lemma TailCodes(s: seq<(string, seq<string>)>)
    requires DistinctCodes(s) && s != []
    ensures DistinctCodes(s[1..])
    ensures Codes(s) == [s[0].0] + Codes(s[1..])
    ensures s[0].0 !in Codes(s[1..])
  {
    forall i | 0 <= i < |s| - 1 ensures s[1..][i] == s[i + 1] { }
  }

  /** `array_replace_recursive` on a section: every entry of the override, in order,
      is put into the base. */
  function MergeSection(base: Section, over: Section): Section
    decreases |over|
  {
    if over == [] then base
    else
      TailCodes(over);
      MergeSection(Put(base, over[0].0, over[0].1), over[1..])
  }

  /** `array_replace_recursive` on the value of one top-level key: a key found in only
      one of the two arrays keeps that array's value. */
  function MergeOptional(base: Option<Section>, over: Option<Section>): Option<Section>
  {
    match (base, over)
    case (Some(b), Some(o)) => Some(MergeSection(b, o))
    case (Some(b), None) => Some(b)
    case (None, _) => over
  }

  /** `array_replace_recursive($config, $local)` on whole configurations. */
  function MergeConfig(base: PhpConfig, over: PhpConfig): PhpConfig
  {
    PhpConfig(MergeOptional(base.store, over.store), MergeOptional(base.website, over.website))
  }

  /** The configuration `loadConfig` leaves behind (src/StoreMatcher.php:66-85), given
      what the base file and the `store-hosts.local.php` beside it return; `None` is a
      file that does not exist. */
  function LoadedConfig(baseFile: Option<PhpConfig>, localFile: Option<PhpConfig>): PhpConfig
  {
    match baseFile
    case None => EmptyConfig
    case Some(base) =>
      match localFile
      case None => base
      case Some(local) => MergeConfig(base, local)
  }

  /** What the merged section holds under a code, given what the base and the override
      hold under it. */
  function MergedEntry(base: Option<seq<string>>, over: Option<seq<string>>): Option<seq<string>>
  {
    match (base, over)
    case (Some(b), Some(o)) => Some(MergeHosts(b, o))
    case (Some(b), None) => Some(b)
    case (None, _) => over
  }

  /** The codes of `xs` that are not in `known`, in order. */
  function NewCodes(xs: seq<string>, known: seq<string>): (r: seq<string>)
  {
    if xs == [] then []
    else (if xs[0] in known then [] else [xs[0]]) + NewCodes(xs[1..], known)
  }

  // ---- Properties of the merge ----

  /** Putting one entry changes the lookup of that code only. */
  lemma PutLookup(acc: Section, code: string, hosts: seq<string>, c: string)
    ensures Lookup(Put(acc, code, hosts), c)
         == if c == code then MergedEntry(Lookup(acc, c), Some(hosts)) else Lookup(acc, c)
  {
    var r := Put(acc, code, hosts);
    match Find(acc, code)
    case Some(i) =>
      assert Codes(r) == Codes(acc);
      if c != code {
        if k :| 0 <= k < |acc| && acc[k].0 == c {
          assert r[k] == acc[k];
        }
      }
    case None =>
      if c != code {
        if k :| 0 <= k < |acc| && acc[k].0 == c {
          assert r[k] == acc[k];
        }
      } else {
        assert r[|acc|] == (code, hosts);
      }
  }

  /** Putting an entry keeps the order of the existing codes and appends a new one. */
  lemma PutCodes(acc: Section, code: string, hosts: seq<string>)
    ensures Codes(Put(acc, code, hosts))
         == if code in Codes(acc) then Codes(acc) else Codes(acc) + [code]
  {
    var r := Put(acc, code, hosts);
    match Find(acc, code)
    case Some(i) =>
      assert Codes(acc)[i] == code;
      assert Codes(r) == Codes(acc);
    case None =>
      assert Codes(r) == Codes(acc) + [code];
  }

  /** A code that does not occur in `xs` can be added to `known` without changing
      which codes of `xs` are new. */
  lemma {:induction false} NewCodesIgnores(xs: seq<string>, known: seq<string>, code: string)
    requires code !in xs
    ensures NewCodes(xs, known + [code]) == NewCodes(xs, known)
  {
    if xs != [] {
      NewCodesIgnores(xs[1..], known, code);
    }
  }

  /** The merged section holds, under every code, what the base holds if the override
      does not list the code, what the override holds if the base does not, and the two
      host lists merged by index if both do. */
  lemma {:induction false} MergeSectionLookup(base: Section, over: Section, c: string)
    ensures Lookup(MergeSection(base, over), c) == MergedEntry(Lookup(base, c), Lookup(over, c))
    decreases |over|
  {
    if over != [] {
      TailCodes(over);
      var rest: Section := over[1..];
      var acc := Put(base, over[0].0, over[0].1);
      MergeSectionLookup(acc, rest, c);
      PutLookup(base, over[0].0, over[0].1, c);
      if c == over[0].0 {
        assert Lookup(over, c) == Some(over[0].1);
        forall i | 0 <= i < |rest| ensures rest[i].0 != c {
          assert rest[i] == over[i + 1];
        }
      } else {
        if k :| 0 <= k < |rest| && rest[k].0 == c {
          assert rest[k] == over[k + 1];
        }
        if k :| 0 <= k < |over| && over[k].0 == c {
          assert rest[k - 1] == over[k];
        }
      }
    }
  }

  /** Taking in one code and then the codes `xs` that do not include it: the known
      codes, grown by that code if it is new, followed by the new codes of `xs`, are the
      old known codes followed by the new codes of the whole. */
  lemma NewCodeThenRest(known: seq<string>, code: string, xs: seq<string>)
    requires code !in xs
    ensures var grown := if code in known then known else known + [code];
            grown + NewCodes(xs, grown) == known + NewCodes([code] + xs, known)
  {
    NewCodesStep(code, xs, known);
    if code !in known {
      NewCodesIgnores(xs, known, code);
      var tail := NewCodes(xs, known);
      assert (known + [code]) + tail == known + ([code] + tail);
    }
  }

  /** The merged section lists the base's codes in their old order, followed by the
      codes found only in the override, in the override's order. */
  lemma {:induction false} MergeSectionCodes(base: Section, over: Section)
    ensures Codes(MergeSection(base, over)) == Codes(base) + NewCodes(Codes(over), Codes(base))
    decreases |over|
  {
    if over != [] {
      TailCodes(over);
      var rest: Section := over[1..];
      var acc := Put(base, over[0].0, over[0].1);
      MergeSectionCodes(acc, rest);
      PutCodes(base, over[0].0, over[0].1);
      NewCodeThenRest(Codes(base), over[0].0, Codes(rest));
      assert MergeSection(base, over) == MergeSection(acc, rest);
    }
  }

  /** One step of `NewCodes`. */
  lemma NewCodesStep(x: string, xs: seq<string>, known: seq<string>)
    ensures NewCodes([x] + xs, known) == (if x in known then [] else [x]) + NewCodes(xs, known)
  {
    assert ([x] + xs)[1..] == xs;
  }

  /** After `loadConfig`, a missing base file gives empty sections whatever the local
      file holds; otherwise each section holds under every code the merge of what the
      base file and the local file hold under it, a missing file or section holding
      nothing. */
  lemma LoadedConfigLookup(baseFile: Option<PhpConfig>, localFile: Option<PhpConfig>, c: string)
    ensures baseFile.None? ==> LoadedConfig(baseFile, localFile) == EmptyConfig
    ensures baseFile.Some? ==>
            var cfg := LoadedConfig(baseFile, localFile);
            var base := baseFile.value;
            var local := localFile.GetOr(PhpConfig(None, None));
            && Lookup(SectionOf(cfg.store), c)
               == MergedEntry(Lookup(SectionOf(base.store), c), Lookup(SectionOf(local.store), c))
            && Lookup(SectionOf(cfg.website), c)
               == MergedEntry(Lookup(SectionOf(base.website), c), Lookup(SectionOf(local.website), c))
  {
    if baseFile.Some? && localFile.Some? {
      var b, o := baseFile.value, localFile.value;
      if b.store.Some? && o.store.Some? {
        MergeSectionLookup(b.store.value, o.store.value, c);
      }
      if b.website.Some? && o.website.Some? {
        MergeSectionLookup(b.website.value, o.website.value, c);
      }
    }
  }

  /** The example of the merge on host lists: base `['p', 'q']` with override `['r']`
      gives `['r', 'q']`, not `['r']`. */
  lemma MergeHostsByIndex()
    ensures MergeHosts(["p", "q"], ["r"]) == ["r", "q"]
  {
  }
}
