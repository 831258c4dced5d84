/**
  Reading a configured `kernels` tree as a store, and what an unedited
  configuration resolves to: the store read from the default records the
  schema publishes, and the launch configurations it yields.
 */
module SchemaDefaults {
  import opened Wrappers
  import opened Dimensions
  import opened LaunchConfiguration
  import opened DeviceMatching
  import opened KernelConfigurations
  import opened ResolutionProperties
  import opened Schema

  /** One kernel of a configured `kernels` tree: its name and its per-device records, in order. */
  datatype ConfiguredKernel = ConfiguredKernel(name: string, records: seq<FieldList>)

  /** The configuration an unedited schema gives: each kernel with its default records. */
  function Unedited(schemas: seq<KernelSchema>): (r: seq<ConfiguredKernel>)
    ensures |r| == |schemas|
    ensures forall i :: 0 <= i < |schemas| ==> r[i] == ConfiguredKernel(schemas[i].name, schemas[i].defaults)
  {
    seq(|schemas|, i requires 0 <= i < |schemas| => ConfiguredKernel(schemas[i].name, schemas[i].defaults))
  }

  /** Reads every record as a rule; nothing when one of them lacks a field. */
  function ReadRules(records: seq<FieldList>): (r: Option<seq<Rule>>)
    ensures r.Some? <==> forall j :: 0 <= j < |records| ==> ReadRule(records[j]).Some?
    ensures r.Some? ==> |r.value| == |records| && forall j :: 0 <= j < |records| ==> ReadRule(records[j]) == Some(r.value[j])
    decreases |records|
  {
    if |records| == 0 then Some([])
    else match (ReadRule(records[0]), ReadRules(records[1..]))
      case (Some(rule), Some(rest)) => Some([rule] + rest)
      case _ => None
  }

  /**
    Reads a configured tree eagerly as a store: each kernel with its records
    read as rules; nothing when any record of any kernel lacks a field.
   */
  function ReadStore(kernels: seq<ConfiguredKernel>): (r: Option<Store>)
    ensures r.Some? <==> forall i :: 0 <= i < |kernels| ==> ReadRules(kernels[i].records).Some?
    ensures r.Some? ==> |r.value.kernels| == |kernels|
    ensures r.Some? ==> forall i :: 0 <= i < |kernels| ==>
      r.value.kernels[i] == Kernel(kernels[i].name, ReadRules(kernels[i].records).value)
    decreases |kernels|
  {
    if |kernels| == 0 then Some(Store([]))
    else match (ReadRules(kernels[0].records), ReadStore(kernels[1..]))
      case (Some(rules), Some(rest)) => Some(Store([Kernel(kernels[0].name, rules)] + rest.kernels))
      case _ => None
  }

  /** A lone record that reads as `rule` reads as the one-rule list. */
  lemma ReadSingleRule(records: seq<FieldList>, rule: Rule)
    requires |records| == 1 && ReadRule(records[0]) == Some(rule)
    ensures ReadRules(records) == Some([rule])
  {
    var r := ReadRules(records);
    assert r.Some?;
    assert |r.value| == 1;
    assert r.value[0] == rule;
    assert r.value == [rule];
  }

  /** Kernels whose defaults all read as the one rule `rule` give a store of one-rule kernels. */
  lemma ReadUniformStore(kernels: seq<ConfiguredKernel>, rule: Rule)
    requires forall i :: 0 <= i < |kernels| ==> ReadRules(kernels[i].records) == Some([rule])
    ensures ReadStore(kernels).Some?
    ensures forall i :: 0 <= i < |kernels| ==> ReadStore(kernels).value.kernels[i] == Kernel(kernels[i].name, [rule])
  {
  }

  /**
    Unedited basic configuration: every listed kernel has the single rule
    device "", threads [1], blocks [1].
   */
  lemma BasicDefaultStore(kernelNames: seq<string>)
    ensures ReadStore(Unedited(FillBasicDescriptions(kernelNames).kernels)).Some?
    ensures forall i :: 0 <= i < |kernelNames| ==>
      ReadStore(Unedited(FillBasicDescriptions(kernelNames).kernels)).value.kernels[i] == Kernel(kernelNames[i], [Rule("", [1], [1])])
  {
    var d := FillBasicDescriptions(kernelNames).kernels;
    var rule := Rule("", [1], [1]);
    forall i | 0 <= i < |d|
      ensures ReadRules(d[i].defaults) == Some([rule])
    {
      ReadSingleRule(d[i].defaults, rule);
    }
    ReadUniformStore(Unedited(d), rule);
  }

  /**
    Whatever the device, and whether or not the empty pattern is taken to
    match it, an unedited basic configuration launches every listed kernel
    with the default dimensions: threads (1, 1, 1) and blocks (1, 1, 1).
   */
  lemma UneditedBasicGivesDefaultDimensions(search: RegexSearch, kernelNames: seq<string>, device: string, i: nat)
    requires forall p, q :: 0 <= p < q < |kernelNames| ==> kernelNames[p] != kernelNames[q]
    requires i < |kernelNames|
    ensures var store := ReadStore(Unedited(FillBasicDescriptions(kernelNames).kernels)).value;
            var c := GetConfig(GetConfigsForDevice(search, store, device), kernelNames[i]);
            c.threads == DefaultConfig.threads && c.blocks == DefaultConfig.blocks
    ensures var store := ReadStore(Unedited(FillBasicDescriptions(kernelNames).kernels)).value;
            var c := GetConfig(GetConfigsForDevice(search, store, device), kernelNames[i]);
            c == (if search(device, "") == Bool(true) then LaunchConfig(kernelNames[i], Ones, Ones) else DefaultConfig)
  {
    BasicDefaultStore(kernelNames);
    var store := ReadStore(Unedited(FillBasicDescriptions(kernelNames).kernels)).value;
    assert DistinctNames(store.kernels);
    DefaultRuleResolves(search, store, device, i);
  }

  /** A kernel whose only rule is the basic default resolves to all ones, or is absent. */
  lemma DefaultRuleResolves(search: RegexSearch, store: Store, device: string, i: nat)
    requires DistinctNames(store.kernels)
    requires i < |store.kernels|
    requires store.kernels[i].rules == [Rule("", [1], [1])]
    ensures GetConfig(GetConfigsForDevice(search, store, device), store.kernels[i].name)
         == if search(device, "") == Bool(true) then LaunchConfig(store.kernels[i].name, Ones, Ones) else DefaultConfig
  {
    var rules := store.kernels[i].rules;
    if search(device, "") == Bool(true) {
      assert IsFirstMatch(search, device, rules, 0);
      FirstMatchWins(search, store, device, i, 0);
      assert ConvertToDimensions([1]) == Ones;
    } else {
      UnresolvedGetsDefault(search, store, device, i);
    }
  }

  /**
    The detailed default records carry no device, so read as they stand they
    give no store; completed with their description's defaults, each reads as
    the rule device "" with the kernel's own threads and blocks.
   */
  lemma DetailedDefaultsNeedCompletion(kernels: seq<KernelDescription>, i: nat)
    requires i < |kernels|
    ensures ReadStore(Unedited(FillDetailedDescriptions(kernels).kernels)).None?
    ensures var entry := FillDetailedDescriptions(kernels).kernels[i];
            ReadRule(WithDefaults(entry.defaults[0], entry.description)) == Some(Rule("", kernels[i].threads, kernels[i].blocks))
  {
    var d := FillDetailedDescriptions(kernels).kernels;
    assert ReadRule(d[i].defaults[0]).None?;
    assert ReadRules(d[i].defaults).None?;
  }
}
