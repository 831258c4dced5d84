/**
  Properties of resolving the store for one device: first match wins, later
  and malformed rules are skipped, unresolved kernels fall back to the
  default configuration, and kernels do not influence one another.
 */
module ResolutionProperties {
  import opened Wrappers
  import opened Dimensions
  import opened LaunchConfiguration
  import opened DeviceMatching
  import opened KernelConfigurations

  /** A resolution found by name carries that name and comes from a kernel of the store. */
  lemma {:induction false} FirstResolvedIsNamed(search: RegexSearch, device: string, kernels: seq<Kernel>, name: string)
    requires FirstResolved(search, device, kernels, name).Some?
    ensures FirstResolved(search, device, kernels, name).value.kernelName == name
    ensures name in Names(kernels)
    decreases |kernels|
  {
    if kernels[0].name == name && ResolveKernel(search, device, name, kernels[0].rules).Some? {
      assert kernels[0].name in Names(kernels);
    } else {
      FirstResolvedIsNamed(search, device, kernels[1..], name);
      var i :| 0 <= i < |kernels[1..]| && kernels[1..][i].name == name;
      assert kernels[i + 1].name == name;
    }
  }

  /** In a store with unique names, the lookup by name is the resolution of that one kernel. */
  lemma {:induction false} FirstResolvedOfDistinct(search: RegexSearch, device: string, kernels: seq<Kernel>, i: nat)
    requires DistinctNames(kernels)
    requires i < |kernels|
    ensures FirstResolved(search, device, kernels, kernels[i].name)
         == ResolveKernel(search, device, kernels[i].name, kernels[i].rules)
    decreases i
  {
    var name := kernels[i].name;
    if i > 0 {
      assert kernels[0].name != name;
      assert kernels[1..][i - 1] == kernels[i];
      assert DistinctNames(kernels[1..]) by {
        forall p, q | 0 <= p < q < |kernels[1..]|
          ensures kernels[1..][p].name != kernels[1..][q].name
        {
          assert kernels[1..][p] == kernels[p + 1] && kernels[1..][q] == kernels[q + 1];
        }
      }
      FirstResolvedOfDistinct(search, device, kernels[1..], i - 1);
      assert FirstResolved(search, device, kernels, name) == FirstResolved(search, device, kernels[1..], name);
    } else {
      forall j | 0 <= j < |kernels[1..]|
        ensures kernels[1..][j].name != name
      {
        assert kernels[1..][j] == kernels[j + 1];
      }
      FirstResolvedAbsent(search, device, kernels[1..], name);
    }
  }

  /** A name the store does not declare is never resolved. */
  lemma {:induction false} FirstResolvedAbsent(search: RegexSearch, device: string, kernels: seq<Kernel>, name: string)
    requires name !in Names(kernels)
    ensures FirstResolved(search, device, kernels, name) == None
    decreases |kernels|
  {
    if |kernels| > 0 {
      assert kernels[0].name in Names(kernels);
      forall j | 0 <= j < |kernels[1..]|
        ensures kernels[1..][j].name != name
      {
        assert kernels[1..][j] == kernels[j + 1];
        assert kernels[j + 1].name in Names(kernels);
      }
      FirstResolvedAbsent(search, device, kernels[1..], name);
    }
  }

  /** Every key of the result is a kernel of the store, and its entry carries its key as name. */
  lemma KeysAreKernelNames(search: RegexSearch, store: Store, device: string)
    ensures GetConfigsForDevice(search, store, device).Keys <= Names(store.kernels)
    ensures Keyed(GetConfigsForDevice(search, store, device))
  {
    var r := GetConfigsForDevice(search, store, device);
    forall name | name in r
      ensures name in Names(store.kernels) && r[name].kernelName == name
    {
      FirstResolvedIsNamed(search, device, store.kernels, name);
    }
  }

  /**
    First match wins: a kernel whose rule `j` is the first to match gets the
    configuration built from rule `j`, both in the result and through `GetConfig`.
   */
  lemma FirstMatchWins(search: RegexSearch, store: Store, device: string, i: nat, j: nat)
    requires DistinctNames(store.kernels)
    requires i < |store.kernels|
    requires IsFirstMatch(search, device, store.kernels[i].rules, j)
    ensures store.kernels[i].name in GetConfigsForDevice(search, store, device)
    ensures GetConfig(GetConfigsForDevice(search, store, device), store.kernels[i].name)
         == ParseLaunchConfig(store.kernels[i].name, store.kernels[i].rules[j])
  {
    FirstResolvedOfDistinct(search, device, store.kernels, i);
  }

  /** A declared kernel is in the result exactly when one of its rules matches. */
  lemma ResolvedIff(search: RegexSearch, store: Store, device: string, i: nat)
    requires DistinctNames(store.kernels)
    requires i < |store.kernels|
    ensures store.kernels[i].name in GetConfigsForDevice(search, store, device)
        <==> !NoMatch(search, device, store.kernels[i].rules)
  {
    FirstResolvedOfDistinct(search, device, store.kernels, i);
  }

  /**
    A kernel none of whose rules match (in particular one with no rules) has no
    entry, and looking it up yields the default configuration.
   */
  lemma UnresolvedGetsDefault(search: RegexSearch, store: Store, device: string, i: nat)
    requires DistinctNames(store.kernels)
    requires i < |store.kernels|
    requires NoMatch(search, device, store.kernels[i].rules)
    ensures store.kernels[i].name !in GetConfigsForDevice(search, store, device)
    ensures GetConfig(GetConfigsForDevice(search, store, device), store.kernels[i].name) == DefaultConfig
  {
    FirstResolvedOfDistinct(search, device, store.kernels, i);
  }

  /** A kernel the store does not declare is looked up as the default configuration. */
  lemma UnknownKernelGetsDefault(search: RegexSearch, store: Store, device: string, name: string)
    requires name !in Names(store.kernels)
    ensures name !in GetConfigsForDevice(search, store, device)
    ensures GetConfig(GetConfigsForDevice(search, store, device), name) == DefaultConfig
  {
    FirstResolvedAbsent(search, device, store.kernels, name);
  }

  /** Rules after the first match are never consulted, whatever they say. */
  lemma LaterRulesIgnored(search: RegexSearch, device: string, name: string, rules: seq<Rule>, j: nat, tail: seq<Rule>)
    requires IsFirstMatch(search, device, rules, j)
    ensures ResolveKernel(search, device, name, rules[..j + 1] + tail) == ResolveKernel(search, device, name, rules)
  {
    var rules' := rules[..j + 1] + tail;
    forall k | 0 <= k <= j
      ensures rules'[k] == rules[k]
    {
    }
    assert IsFirstMatch(search, device, rules', j);
  }

  /** Dropping a rule that does not match leaves the kernel's resolution unchanged. */
  lemma NonMatchingRuleSkipped(search: RegexSearch, device: string, name: string, rules: seq<Rule>, j: nat)
    requires j < |rules|
    requires !DeviceMatches(search, device, rules[j].device)
    ensures ResolveKernel(search, device, name, rules[..j] + rules[j + 1..]) == ResolveKernel(search, device, name, rules)
  {
    var rules' := rules[..j] + rules[j + 1..];
    assert |rules'| == |rules| - 1;
    assert forall k :: 0 <= k < j ==> rules'[k] == rules[k];
    assert forall k :: j <= k < |rules'| ==> rules'[k] == rules[k + 1];
    if NoMatch(search, device, rules) {
      forall k | 0 <= k < |rules'|
        ensures !DeviceMatches(search, device, rules'[k].device)
      {
        if k >= j {
          assert rules'[k] == rules[k + 1];
        }
      }
    } else {
      var m :| 0 <= m < |rules| && DeviceMatches(search, device, rules[m].device);
      var f := FirstMatchFrom(search, device, rules, 0).value;
      assert IsFirstMatch(search, device, rules, f);
      if f < j {
        assert IsFirstMatch(search, device, rules', f);
      } else {
        assert rules'[f - 1] == rules[f];
        assert IsFirstMatch(search, device, rules', f - 1);
      }
    }
  }

  /**
    A rule whose search raises a regex error is skipped: the kernel resolves as
    if the rule were not there.
   */
  lemma InvalidPatternSkipped(search: RegexSearch, device: string, name: string, rules: seq<Rule>, j: nat)
    requires j < |rules|
    requires search(device, rules[j].device) == Invalid
    ensures ResolveKernel(search, device, name, rules[..j] + rules[j + 1..]) == ResolveKernel(search, device, name, rules)
  {
    NonMatchingRuleSkipped(search, device, name, rules, j);
  }

  /** Replacing the rules of one kernel does not change how another name resolves. */
  lemma {:induction false} OtherKernelIsolatedByName(search: RegexSearch, device: string, kernels: seq<Kernel>,
                                                     i: nat, rules: seq<Rule>, name: string)
    requires i < |kernels|
    requires kernels[i].name != name
    ensures FirstResolved(search, device, kernels[i := Kernel(kernels[i].name, rules)], name)
         == FirstResolved(search, device, kernels, name)
    decreases |kernels|
  {
    var kernels' := kernels[i := Kernel(kernels[i].name, rules)];
    if i > 0 {
      assert kernels'[0] == kernels[0];
      assert kernels'[1..] == kernels[1..][i - 1 := Kernel(kernels[i].name, rules)];
      OtherKernelIsolatedByName(search, device, kernels[1..], i - 1, rules, name);
    } else {
      assert kernels'[1..] == kernels[1..];
    }
  }

  /**
    Resolution is per kernel: whatever the rules of kernel `i` are (malformed
    patterns included), every other name resolves exactly as before.
   */
  lemma OtherKernelIsolated(search: RegexSearch, store: Store, device: string, i: nat, rules: seq<Rule>, name: string)
    requires i < |store.kernels|
    requires store.kernels[i].name != name
    ensures name in GetConfigsForDevice(search, Store(store.kernels[i := Kernel(store.kernels[i].name, rules)]), device)
        <==> name in GetConfigsForDevice(search, store, device)
    ensures GetConfig(GetConfigsForDevice(search, Store(store.kernels[i := Kernel(store.kernels[i].name, rules)]), device), name)
         == GetConfig(GetConfigsForDevice(search, store, device), name)
  {
    OtherKernelIsolatedByName(search, device, store.kernels, i, rules, name);
  }

  /**
    With unique names, the order in which the store lists its kernels does not
    matter: two stores holding the same kernels resolve to the same result.
   */
  lemma OrderIndependent(search: RegexSearch, a: Store, b: Store, device: string)
    requires DistinctNames(a.kernels) && DistinctNames(b.kernels)
    requires forall k :: k in a.kernels <==> k in b.kernels
    ensures GetConfigsForDevice(search, a, device) == GetConfigsForDevice(search, b, device)
  {
    var ra := GetConfigsForDevice(search, a, device);
    var rb := GetConfigsForDevice(search, b, device);
    forall name
      ensures FirstResolved(search, device, a.kernels, name) == FirstResolved(search, device, b.kernels, name)
    {
      if name in Names(a.kernels) {
        var i :| 0 <= i < |a.kernels| && a.kernels[i].name == name;
        assert a.kernels[i] in b.kernels;
        var j :| 0 <= j < |b.kernels| && b.kernels[j] == a.kernels[i];
        FirstResolvedOfDistinct(search, device, a.kernels, i);
        FirstResolvedOfDistinct(search, device, b.kernels, j);
      } else {
        FirstResolvedAbsent(search, device, a.kernels, name);
        assert name !in Names(b.kernels) by {
          forall j | 0 <= j < |b.kernels|
            ensures b.kernels[j].name != name
          {
            assert b.kernels[j] in a.kernels;
            var i :| 0 <= i < |a.kernels| && a.kernels[i] == b.kernels[j];
            assert a.kernels[i].name in Names(a.kernels);
          }
        }
        FirstResolvedAbsent(search, device, b.kernels, name);
      }
    }
    assert ra.Keys == rb.Keys;
  }

  /**
    The result is determined by the store and the device: any map that is
    keyed and valued as resolution describes is the result.
   */
  lemma ResolutionDeterministic(search: RegexSearch, store: Store, device: string, m: LaunchConfigs)
    requires forall name :: name in m <==> FirstResolved(search, device, store.kernels, name).Some?
    requires forall name :: name in m ==> Some(m[name]) == FirstResolved(search, device, store.kernels, name)
    ensures m == GetConfigsForDevice(search, store, device)
  {
    var r := GetConfigsForDevice(search, store, device);
    assert m.Keys == r.Keys;
  }
}
