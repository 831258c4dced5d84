/**
  Resolution over the configured records as the registry actually reads them:
  lazily. For each kernel the rule scan reads `device` of each record only
  until one matches, and `threads` and `blocks` only of the matching record;
  a record read there that lacks the field (or holds the wrong type) makes the
  typed getter throw, and then no configurations are returned at all.
 */
module LazyReading {
  import opened Wrappers
  import opened LaunchConfiguration
  import opened DeviceMatching
  import opened KernelConfigurations
  import opened Schema
  import opened SchemaDefaults

  /** The outcome of scanning one kernel's records. */
  datatype Scan = Found(config: LaunchConfig) | NotFound | Throws

  /** The `device` field of a record, when it holds one as text. */
  function ReadDevice(record: FieldList): (r: Option<string>)
    ensures r.Some? <==> Lookup(record, Device).Some? && Lookup(record, Device).value.Text?
    ensures r.Some? ==> Lookup(record, Device) == Some(Text(r.value))
  {
    match Lookup(record, Device)
    case Some(Text(d)) => Some(d)
    case _ => None
  }

  /** The scan reads this record's device and moves past it: the pattern is there and does not match. */
  ghost predicate Skips(search: RegexSearch, device: string, record: FieldList) {
    ReadDevice(record).Some? && !DeviceMatches(search, device, ReadDevice(record).value)
  }

  /** The scan stops at this record with a configuration: it reads fully and its pattern matches. */
  ghost predicate Takes(search: RegexSearch, device: string, record: FieldList) {
    ReadRule(record).Some? && DeviceMatches(search, device, ReadRule(record).value.device)
  }

  /** The scan moves past every record from `from` up to `to`. */
  ghost predicate SkipsAll(search: RegexSearch, device: string, records: seq<FieldList>, from: nat, to: nat)
    requires from <= to <= |records|
  {
    forall k :: from <= k < to ==> Skips(search, device, records[k])
  }

  /**
    The rule scan of one kernel from record `from` on, reading fields only as
    the getters are reached: it finds nothing exactly when it moves past every
    record, and what it finds carries the kernel's name.
   */
  function ScanRecords(search: RegexSearch, device: string, name: string, records: seq<FieldList>, from: nat): (r: Scan)
    requires from <= |records|
    ensures r.NotFound? <==> SkipsAll(search, device, records, from, |records|)
    ensures r.Found? ==> r.config.kernelName == name
    decreases |records| - from
  {
    if from == |records| then NotFound
    else match ReadDevice(records[from])
      case None => Throws
      case Some(pattern) =>
        if DeviceMatches(search, device, pattern) then
          match ReadRule(records[from])
          case Some(rule) => Found(ParseLaunchConfig(name, rule))
          case None => Throws
        else ScanRecords(search, device, name, records, from + 1)
  }

  /**
    The scan is decided by the first record it does not move past: that record
    gives its configuration if it reads fully and matches, and a throw
    otherwise; no record after it is read.
   */
  lemma {:induction false} ScanStopsAt(search: RegexSearch, device: string, name: string, records: seq<FieldList>, from: nat, j: nat)
    requires from <= j < |records|
    requires SkipsAll(search, device, records, from, j) && !Skips(search, device, records[j])
    ensures ScanRecords(search, device, name, records, from)
         == if Takes(search, device, records[j]) then Found(ParseLaunchConfig(name, ReadRule(records[j]).value)) else Throws
    decreases j - from
  {
    if from < j {
      assert Skips(search, device, records[from]);
      ScanStopsAt(search, device, name, records, from + 1, j);
    }
  }

  /** The scan of kernel `i` reaches a record it cannot read. */
  ghost predicate ThrowsAt(search: RegexSearch, device: string, kernels: seq<ConfiguredKernel>, i: int) {
    0 <= i < |kernels| && ScanRecords(search, device, kernels[i].name, kernels[i].records, 0).Throws?
  }

  /**
    The configuration of the first kernel called `name` whose scan finds one:
    the per-name reference the kernel loop is measured against.
   */
  function FirstFound(search: RegexSearch, device: string, kernels: seq<ConfiguredKernel>, name: string): Option<LaunchConfig>
    decreases |kernels|
  {
    if |kernels| == 0 then None
    else
      var scan := ScanRecords(search, device, name, kernels[0].records, 0);
      if kernels[0].name == name && scan.Found? then Some(scan.config)
      else FirstFound(search, device, kernels[1..], name)
  }

  /**
    The kernel loop over the configured records: each kernel's scan either
    inserts its configuration, adds nothing, or aborts the whole call. So the
    loop gives nothing exactly when some kernel's scan throws; otherwise it
    keeps what was already inserted, and every new name maps to the first
    configuration found for it.
   */
  function LazyCollect(search: RegexSearch, device: string, kernels: seq<ConfiguredKernel>, acc: LaunchConfigs): (r: Option<LaunchConfigs>)
    ensures r.None? <==> exists i :: ThrowsAt(search, device, kernels, i)
    ensures r.Some? ==> forall name :: name in r.value <==> name in acc || FirstFound(search, device, kernels, name).Some?
    ensures r.Some? ==> forall name :: name in acc ==> r.value[name] == acc[name]
    ensures r.Some? ==> forall name :: name in r.value && name !in acc ==> Some(r.value[name]) == FirstFound(search, device, kernels, name)
    decreases |kernels|
  {
    if |kernels| == 0 then Some(acc)
    else
      var k := kernels[0];
      assert forall i :: 0 <= i ==> (ThrowsAt(search, device, kernels[1..], i) <==> ThrowsAt(search, device, kernels, i + 1));
      assert forall i :: 1 <= i ==> (ThrowsAt(search, device, kernels, i) <==> ThrowsAt(search, device, kernels[1..], i - 1));
      match ScanRecords(search, device, k.name, k.records, 0)
      case Throws => assert ThrowsAt(search, device, kernels, 0); None
      case Found(c) => LazyCollect(search, device, kernels[1..], InsertConfig(acc, c))
      case NotFound => LazyCollect(search, device, kernels[1..], acc)
  }

  /**
    `getConfigsForDevice` over the configured records, read lazily: nothing
    exactly when some kernel's scan reaches a record it cannot read; otherwise
    a name is present exactly when the scan of a kernel of that name finds a
    configuration, and maps to the first one found. When every record is
    readable, these are the configurations resolution over the read store gives.
   */
  function LazyConfigsForDevice(search: RegexSearch, kernels: seq<ConfiguredKernel>, device: string): (r: Option<LaunchConfigs>)
    ensures r.None? <==> exists i :: ThrowsAt(search, device, kernels, i)
    ensures r.Some? ==> forall name :: name in r.value <==> FirstFound(search, device, kernels, name).Some?
    ensures r.Some? ==> forall name :: name in r.value ==> Some(r.value[name]) == FirstFound(search, device, kernels, name)
    ensures ReadStore(kernels).Some? ==> r == Some(GetConfigsForDevice(search, ReadStore(kernels).value, device))
  {
    if ReadStore(kernels).Some? then LazyAgreesWithEager(search, device, kernels, map[]); LazyCollect(search, device, kernels, map[])
    else LazyCollect(search, device, kernels, map[])
  }

  /** On readable records the lazy kernel loop gives what the loop over the read store gives. */
  lemma {:induction false} LazyAgreesWithEager(search: RegexSearch, device: string, kernels: seq<ConfiguredKernel>, acc: LaunchConfigs)
    requires ReadStore(kernels).Some?
    ensures LazyCollect(search, device, kernels, acc) == Some(Collect(search, device, ReadStore(kernels).value.kernels, acc))
    decreases |kernels|
  {
    if |kernels| > 0 {
      var k := kernels[0];
      ReadStoreTail(kernels);
      ScanMatchesResolve(search, device, k.name, k.records);
      var store := ReadStore(kernels).value.kernels;
      assert store[0] == Kernel(k.name, ReadRules(k.records).value);
      assert store[1..] == ReadStore(kernels[1..]).value.kernels;
      var acc' := match ResolveKernel(search, device, k.name, ReadRules(k.records).value)
                  case Some(c) => InsertConfig(acc, c)
                  case None => acc;
      LazyAgreesWithEager(search, device, kernels[1..], acc');
    }
  }

  /** Reading the kernels after the first gives the store after the first kernel. */
  lemma ReadStoreTail(kernels: seq<ConfiguredKernel>)
    requires |kernels| > 0 && ReadStore(kernels).Some?
    ensures ReadStore(kernels[1..]).Some?
    ensures ReadStore(kernels).value.kernels
         == [Kernel(kernels[0].name, ReadRules(kernels[0].records).value)] + ReadStore(kernels[1..]).value.kernels
  {
    forall i | 0 <= i < |kernels[1..]|
      ensures ReadRules(kernels[1..][i].records).Some?
    {
      assert kernels[1..][i] == kernels[i + 1];
    }
    assert ReadStore(kernels[1..]).Some?;
  }

  /** On readable records the lazy scan agrees with resolving the rules they read as. */
  lemma ScanMatchesResolve(search: RegexSearch, device: string, name: string, records: seq<FieldList>)
    requires ReadRules(records).Some?
    ensures ScanRecords(search, device, name, records, 0)
         == match ResolveKernel(search, device, name, ReadRules(records).value)
            case Some(c) => Found(c)
            case None => NotFound
  {
    var rules := ReadRules(records).value;
    assert forall k :: 0 <= k < |records| ==> Skips(search, device, records[k]) == !DeviceMatches(search, device, rules[k].device);
    match FirstMatchFrom(search, device, rules, 0)
    case Some(j) =>
      assert IsFirstMatch(search, device, rules, j);
      assert Takes(search, device, records[j]);
      ScanStopsAt(search, device, name, records, 0, j);
    case None =>
      assert NoMatch(search, device, rules);
      assert SkipsAll(search, device, records, 0, |records|);
  }

  /** Once the scan has stopped, records appended after it are never read. */
  lemma {:induction false} ScanIgnoresLaterRecords(search: RegexSearch, device: string, name: string,
                                                   records: seq<FieldList>, later: seq<FieldList>, from: nat)
    requires from <= |records|
    requires !ScanRecords(search, device, name, records, from).NotFound?
    ensures ScanRecords(search, device, name, records + later, from) == ScanRecords(search, device, name, records, from)
    decreases |records| - from
  {
    assert (records + later)[from] == records[from];
    match ReadDevice(records[from])
    case None =>
    case Some(pattern) =>
      if !DeviceMatches(search, device, pattern) {
        ScanIgnoresLaterRecords(search, device, name, records, later, from + 1);
      }
  }
}
