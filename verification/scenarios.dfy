/**
  Worked examples of the registry: dimension conversion, first match wins,
  a malformed pattern, a two-kernel configuration resolved for a T4 GPU, and
  a record the rule scan never reaches.
  The regular-expression engine is only constrained on the inputs each
  example needs.
 */
module Scenarios {
  import opened Wrappers
  import opened Dimensions
  import opened LaunchConfiguration
  import opened DeviceMatching
  import opened KernelConfigurations
  import opened ResolutionProperties
  import opened Schema
  import opened SchemaDefaults
  import opened LazyReading

  /** A one-component list is padded; a four-component list loses its fourth. */
  lemma ConvertExamples()
    ensures ConvertToDimensions([8]) == [8, 1, 1]
    ensures ConvertToDimensions([4, 4, 4, 4]) == [4, 4, 4]
    ensures ConvertToDimensions([]) == Ones
  {
    ConvertIsPadThenTruncate([8]);
    ConvertIsPadThenTruncate([4, 4, 4, 4]);
  }

  /**
    Rules `a.*` then `.*`: "abc" takes the first rule even though the
    catch-all also matches, "xyz" falls through to the catch-all.
   */
  lemma FirstMatchExample(search: RegexSearch, t1: seq<U32>, b1: seq<U32>, t2: seq<U32>, b2: seq<U32>)
    requires search("abc", "a.*") == Bool(true)
    requires search("xyz", "a.*") == Bool(false)
    requires search("xyz", ".*") == Bool(true)
    ensures var rules := [Rule("a.*", t1, b1), Rule(".*", t2, b2)];
            ResolveKernel(search, "abc", "k", rules) == Some(LaunchConfig("k", ConvertToDimensions(t1), ConvertToDimensions(b1)))
    ensures var rules := [Rule("a.*", t1, b1), Rule(".*", t2, b2)];
            ResolveKernel(search, "xyz", "k", rules) == Some(LaunchConfig("k", ConvertToDimensions(t2), ConvertToDimensions(b2)))
  {
    var rules := [Rule("a.*", t1, b1), Rule(".*", t2, b2)];
    assert IsFirstMatch(search, "abc", rules, 0);
    assert IsFirstMatch(search, "xyz", rules, 1);
  }

  /** A rule with an unbalanced group is skipped and the next rule of the kernel applies. */
  lemma InvalidPatternExample(search: RegexSearch, device: string, t: seq<U32>, b: seq<U32>)
    requires search(device, "((") == Invalid
    requires search(device, ".*") == Bool(true)
    ensures ResolveKernel(search, device, "k", [Rule("((", [1], [1]), Rule(".*", t, b)])
         == Some(LaunchConfig("k", ConvertToDimensions(t), ConvertToDimensions(b)))
  {
    assert IsFirstMatch(search, device, [Rule("((", [1], [1]), Rule(".*", t, b)], 1);
  }

  /** The configuration of the two-kernel example. */
  function T4Example(): Store {
    Store([ Kernel("findClus", [Rule("cuda/sm_7[0-9]/.*", [64], [1])]),
            Kernel("kernel_connect", [Rule("cpu", [1], [1])]) ])
  }

  /**
    On "cuda/sm_75/T4" `findClus` resolves to threads (64, 1, 1) and blocks
    (1, 1, 1), while `kernel_connect` (a CPU-only rule) is left out and looks
    up as the default configuration.
   */
  lemma T4ExampleResolves(search: RegexSearch)
    requires search("cuda/sm_75/T4", "cuda/sm_7[0-9]/.*") == Bool(true)
    requires search("cuda/sm_75/T4", "cpu") == Bool(false)
    ensures GetConfig(GetConfigsForDevice(search, T4Example(), "cuda/sm_75/T4"), "findClus")
         == LaunchConfig("findClus", [64, 1, 1], [1, 1, 1])
    ensures "kernel_connect" !in GetConfigsForDevice(search, T4Example(), "cuda/sm_75/T4")
    ensures GetConfig(GetConfigsForDevice(search, T4Example(), "cuda/sm_75/T4"), "kernel_connect") == DefaultConfig
  {
    var store := T4Example();
    assert DistinctNames(store.kernels);
    assert IsFirstMatch(search, "cuda/sm_75/T4", store.kernels[0].rules, 0);
    FirstMatchWins(search, store, "cuda/sm_75/T4", 0, 0);
    ConvertIsPadThenTruncate([64]);
    ConvertIsPadThenTruncate([1]);
    UnresolvedGetsDefault(search, store, "cuda/sm_75/T4", 1);
  }

  /** A kernel whose second record lacks `device`. */
  function PartialRecords(): seq<ConfiguredKernel> {
    [ConfiguredKernel("k", [ [Field(Device, Text("x")), Field(Threads, Numbers([1])), Field(Blocks, Numbers([1]))],
                             [Field(Threads, Numbers([1])), Field(Blocks, Numbers([1]))] ])]
  }

  /**
    The record without `device` makes the records unreadable as a store, yet
    the scan only reads it when the first record does not match: on a device
    that "x" matches, `k` resolves to all ones; on any other it throws.
   */
  lemma PartialRecordsExample(search: RegexSearch, device: string)
    ensures ReadStore(PartialRecords()).None?
    ensures search(device, "x") == Bool(true) ==>
      LazyConfigsForDevice(search, PartialRecords(), device) == Some(map["k" := LaunchConfig("k", Ones, Ones)])
    ensures search(device, "x") != Bool(true) ==> LazyConfigsForDevice(search, PartialRecords(), device).None?
  {
    var kernels := PartialRecords();
    var records := kernels[0].records;
    assert ReadRule(records[1]).None?;
    assert ReadRules(records).None?;
    assert ReadDevice(records[0]) == Some("x");
    assert ReadRule(records[0]) == Some(Rule("x", [1], [1]));
    assert ConvertToDimensions([1]) == Ones by {
      ConvertIsPadThenTruncate([1]);
    }
    if search(device, "x") == Bool(true) {
      assert Takes(search, device, records[0]);
      ScanStopsAt(search, device, "k", records, 0, 0);
    } else {
      assert Skips(search, device, records[0]);
      assert ReadDevice(records[1]).None?;
      ScanStopsAt(search, device, "k", records, 0, 1);
      assert ThrowsAt(search, device, kernels, 0);
    }
  }
}
