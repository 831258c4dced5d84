/**
  The kernel configuration store and its resolution for one device: for each
  kernel, in store order, the first rule whose device pattern matches the
  device gives that kernel's launch configuration; kernels without a matching
  rule are left out of the result.
 */
module KernelConfigurations {
  import opened Wrappers
  import opened Dimensions
  import opened LaunchConfiguration
  import opened DeviceMatching

  /** One per-device record of a kernel: pattern, threads and blocks as configured. */
  datatype Rule = Rule(device: string, threads: seq<U32>, blocks: seq<U32>)

  /** A kernel name with its rules, in declaration order. */
  datatype Kernel = Kernel(name: string, rules: seq<Rule>)

  /** The `kernels` parameter tree: kernels in parameter-name order. */
  datatype Store = Store(kernels: seq<Kernel>)

  /** Parameter names of a parameter tree are unique. */
  ghost predicate DistinctNames(kernels: seq<Kernel>) {
    forall i, j :: 0 <= i < j < |kernels| ==> kernels[i].name != kernels[j].name
  }

  /** The kernel names the store declares. */
  ghost function Names(kernels: seq<Kernel>): set<string> {
    set i | 0 <= i < |kernels| :: kernels[i].name
  }

  /** Rule `i` is the lowest-index rule whose pattern matches `device`. */
  ghost predicate IsFirstMatch(search: RegexSearch, device: string, rules: seq<Rule>, i: int) {
    && 0 <= i < |rules|
    && DeviceMatches(search, device, rules[i].device)
    && forall j :: 0 <= j < i ==> !DeviceMatches(search, device, rules[j].device)
  }

  /** No rule's pattern matches `device`. */
  ghost predicate NoMatch(search: RegexSearch, device: string, rules: seq<Rule>) {
    forall j :: 0 <= j < |rules| ==> !DeviceMatches(search, device, rules[j].device)
  }

  /** Builds the configuration a matched rule stands for. */
  function ParseLaunchConfig(name: string, rule: Rule): (c: LaunchConfig)
    ensures c.kernelName == name
    ensures Fits(rule.threads, c.threads) && Fits(rule.blocks, c.blocks)
  {
    LaunchConfig(name, ConvertToDimensions(rule.threads), ConvertToDimensions(rule.blocks))
  }

  /** The rule scan with early exit, from rule `from` on: the index of the first match, if any. */
  function FirstMatchFrom(search: RegexSearch, device: string, rules: seq<Rule>, from: nat): (r: Option<nat>)
    requires from <= |rules|
    ensures r.Some? ==> from <= r.value < |rules| && DeviceMatches(search, device, rules[r.value].device)
    ensures r.Some? ==> forall j :: from <= j < r.value ==> !DeviceMatches(search, device, rules[j].device)
    ensures r.None? ==> forall j :: from <= j < |rules| ==> !DeviceMatches(search, device, rules[j].device)
    decreases |rules| - from
  {
    if from == |rules| then None
    else if DeviceMatches(search, device, rules[from].device) then Some(from)
    else FirstMatchFrom(search, device, rules, from + 1)
  }

  /**
    The configuration one kernel gets on `device`: built from its first
    matching rule, or nothing when no rule matches.
   */
  function ResolveKernel(search: RegexSearch, device: string, name: string, rules: seq<Rule>): (r: Option<LaunchConfig>)
    ensures r.None? <==> NoMatch(search, device, rules)
    ensures forall i :: IsFirstMatch(search, device, rules, i) ==> r == Some(ParseLaunchConfig(name, rules[i]))
  {
    match FirstMatchFrom(search, device, rules, 0)
    case None => None
    case Some(i) => Some(ParseLaunchConfig(name, rules[i]))
  }

  /**
    Reference view of the result, one name at a time: the configuration of the
    first kernel called `name` that resolves on `device`.
   */
  function FirstResolved(search: RegexSearch, device: string, kernels: seq<Kernel>, name: string): Option<LaunchConfig>
    decreases |kernels|
  {
    if |kernels| == 0 then None
    else if kernels[0].name == name && ResolveKernel(search, device, name, kernels[0].rules).Some? then
      ResolveKernel(search, device, name, kernels[0].rules)
    else FirstResolved(search, device, kernels[1..], name)
  }

  /** The kernel loop: resolves each kernel in turn and inserts what it finds into `acc`. */
  function Collect(search: RegexSearch, device: string, kernels: seq<Kernel>, acc: LaunchConfigs): (r: LaunchConfigs)
    ensures forall name :: name in r <==> name in acc || FirstResolved(search, device, kernels, name).Some?
    ensures forall name :: name in acc ==> r[name] == acc[name]
    ensures forall name :: name in r && name !in acc ==> Some(r[name]) == FirstResolved(search, device, kernels, name)
    decreases |kernels|
  {
    if |kernels| == 0 then acc
    else
      var k := kernels[0];
      var acc' := match ResolveKernel(search, device, k.name, k.rules)
                  case Some(c) => InsertConfig(acc, c)
                  case None => acc;
      Collect(search, device, kernels[1..], acc')
  }

  /**
    The launch configurations for `device`: a name is present exactly when
    some kernel of that name resolves, and maps to the first such resolution.
   */
  function GetConfigsForDevice(search: RegexSearch, store: Store, device: string): (r: LaunchConfigs)
    ensures forall name :: name in r <==> FirstResolved(search, device, store.kernels, name).Some?
    ensures forall name :: name in r ==> Some(r[name]) == FirstResolved(search, device, store.kernels, name)
  {
    Collect(search, device, store.kernels, map[])
  }
}
