/**
  The configuration schema the registry publishes: for every kernel, the
  description of its per-device records (field names with default values) and
  the one default record that an unedited configuration carries. Parameter
  sets and their descriptions are modelled as ordered field lists.
 */
module Schema {
  import opened Wrappers
  import opened Dimensions
  import opened KernelConfigurations

  /** A parameter value: a string or a list of 32-bit unsigned integers. */
  datatype Value = Text(text: string) | Numbers(numbers: seq<U32>)

  /** The parameter names a per-device record uses. */
  datatype Key = Device | Threads | Blocks | MinThreads | MaxThreads | MinBlocks | MaxBlocks

  /** A named field: in a description its value is the default, in a record the value held. */
  datatype Field = Field(name: Key, value: Value)

  type FieldList = seq<Field>

  /** Per-kernel defaults of the detailed schema (`KernelDescription` of `KernelConfigurations.h`). */
  datatype KernelDescription = KernelDescription(
    name: string,
    threads: seq<U32>,
    blocks: seq<U32>,
    minThreads: seq<U32>,
    maxThreads: seq<U32>,
    minBlocks: seq<U32>,
    maxBlocks: seq<U32>)

  /** The schema of one kernel: its record description and its default records. */
  datatype KernelSchema = KernelSchema(name: string, description: FieldList, defaults: seq<FieldList>)

  /** The schema of the `kernels` parameter tree, one entry per kernel. */
  datatype KernelsDescription = KernelsDescription(kernels: seq<KernelSchema>)

  /** The value of the first field called `name`, if any. */
  function Lookup(fields: FieldList, name: Key): (r: Option<Value>)
  {
    LookupFrom(fields, name, 0)
  }

  /** The value of the first field called `name` at index `from` or later. */
  function LookupFrom(fields: FieldList, name: Key, from: nat): (r: Option<Value>)
    requires from <= |fields|
    ensures r.Some? ==> Field(name, r.value) in fields[from..]
    ensures r.None? ==> forall i :: from <= i < |fields| ==> fields[i].name != name
    decreases |fields| - from
  {
    if from == |fields| then None
    else if fields[from].name == name then Some(fields[from].value)
    else LookupFrom(fields, name, from + 1)
  }

  /** The lookup finds the first field of that name. */
  lemma LookupAt(fields: FieldList, i: nat, name: Key)
    requires i < |fields| && fields[i].name == name
    requires forall j :: 0 <= j < i ==> fields[j].name != name
    ensures Lookup(fields, name) == Some(fields[i].value)
  {
    LookupFromAt(fields, 0, i, name);
  }

  lemma {:induction false} LookupFromAt(fields: FieldList, from: nat, i: nat, name: Key)
    requires from <= i < |fields| && fields[i].name == name
    requires forall j :: from <= j < i ==> fields[j].name != name
    ensures LookupFrom(fields, name, from) == Some(fields[i].value)
    decreases i - from
  {
    if from < i {
      LookupFromAt(fields, from + 1, i, name);
    }
  }

  /** A name no field carries is not found. */
  lemma {:induction false} LookupAbsent(fields: FieldList, name: Key, from: nat)
    requires from <= |fields|
    requires forall f :: f in fields ==> f.name != name
    ensures LookupFrom(fields, name, from) == None
    decreases |fields| - from
  {
    if from < |fields| {
      assert fields[from] in fields;
      LookupAbsent(fields, name, from + 1);
    }
  }

  /** Every field of `record` is declared by `description` with that very value as default. */
  ghost predicate AgreesWith(record: FieldList, description: FieldList) {
    forall f :: f in record ==> Lookup(description, f.name) == Some(f.value)
  }

  /** No two fields share a name. */
  ghost predicate DistinctKeys(fields: FieldList) {
    forall i, j :: 0 <= i < j < |fields| ==> fields[i].name != fields[j].name
  }

  /** A list with distinct names agrees with itself as a description. */
  lemma SelfAgrees(fields: FieldList)
    requires DistinctKeys(fields)
    ensures AgreesWith(fields, fields)
  {
    forall i | 0 <= i < |fields|
      ensures Lookup(fields, fields[i].name) == Some(fields[i].value)
    {
      LookupAt(fields, i, fields[i].name);
    }
  }

  /** Declaring one more field in front keeps every other name's lookup, hence agreement. */
  lemma PrefixAgrees(record: FieldList, first: Field, fields: FieldList)
    requires AgreesWith(record, fields)
    requires forall f :: f in record ==> f.name != first.name
    ensures AgreesWith(record, [first] + fields)
  {
    forall f | f in record
      ensures Lookup([first] + fields, f.name) == Some(f.value)
    {
      LookupAppend([first], fields, f.name);
    }
  }

  /** Reads a per-device record the way resolution does: `device`, `threads` and `blocks`. */
  function ReadRule(record: FieldList): (r: Option<Rule>)
    ensures r.Some? <==> (&& Lookup(record, Device).Some? && Lookup(record, Device).value.Text?
                          && Lookup(record, Threads).Some? && Lookup(record, Threads).value.Numbers?
                          && Lookup(record, Blocks).Some? && Lookup(record, Blocks).value.Numbers?)
    ensures r.Some? ==> (&& Lookup(record, Device) == Some(Text(r.value.device))
                         && Lookup(record, Threads) == Some(Numbers(r.value.threads))
                         && Lookup(record, Blocks) == Some(Numbers(r.value.blocks)))
  {
    match (Lookup(record, Device), Lookup(record, Threads), Lookup(record, Blocks))
    case (Some(Text(d)), Some(Numbers(t)), Some(Numbers(b))) => Some(Rule(d, t, b))
    case _ => None
  }

  /** Looking a name up in two lists put end to end finds it in the first one if it can. */
  lemma LookupAppend(a: FieldList, b: FieldList, name: Key)
    ensures Lookup(a + b, name) == if Lookup(a, name).Some? then Lookup(a, name) else Lookup(b, name)
  {
    LookupFromAppend(a, b, name, 0);
  }

  lemma {:induction false} LookupFromAppend(a: FieldList, b: FieldList, name: Key, from: nat)
    requires from <= |a|
    ensures LookupFrom(a + b, name, from)
         == if LookupFrom(a, name, from).Some? then LookupFrom(a, name, from) else Lookup(b, name)
    decreases |a| - from
  {
    if from < |a| {
      assert (a + b)[from] == a[from];
      LookupFromAppend(a, b, name, from + 1);
    } else {
      LookupFromShift(a, b, name, 0);
    }
  }

  /** Looking up in `b` from `from` is looking up in `a + b` from `|a| + from`. */
  lemma {:induction false} LookupFromShift(a: FieldList, b: FieldList, name: Key, from: nat)
    requires from <= |b|
    ensures LookupFrom(a + b, name, |a| + from) == LookupFrom(b, name, from)
    decreases |b| - from
  {
    if from < |b| {
      assert (a + b)[|a| + from] == b[from];
      LookupFromShift(a, b, name, from + 1);
    }
  }

  /** The fields of `description` whose names `record` does not hold, in order. */
  function Missing(description: FieldList, record: FieldList): (r: FieldList)
    ensures forall name :: Lookup(record, name).None? ==> Lookup(r, name) == Lookup(description, name)
    decreases |description|
  {
    if |description| == 0 then []
    else
      var rest := Missing(description[1..], record);
      var head := if Lookup(record, description[0].name).None? then [description[0]] else [];
      assert description == [description[0]] + description[1..];
      forall name | Lookup(record, name).None?
        ensures Lookup(head + rest, name) == Lookup(description, name)
      {
        LookupAppend(head, rest, name);
        LookupAppend([description[0]], description[1..], name);
      }
      head + rest
  }

  /**
    `record` completed with the description's default for every field it
    lacks: a field the record holds keeps its value, any other field takes
    the description's default.
   */
  function WithDefaults(record: FieldList, description: FieldList): (r: FieldList)
    ensures forall name :: Lookup(r, name) == if Lookup(record, name).Some? then Lookup(record, name) else Lookup(description, name)
  {
    forall name
      ensures Lookup(record + Missing(description, record), name)
           == if Lookup(record, name).Some? then Lookup(record, name) else Lookup(description, name)
    {
      LookupAppend(record, Missing(description, record), name);
    }
    record + Missing(description, record)
  }

  /** The names a basic per-device record holds: `device`, `threads` and `blocks`. */
  ghost predicate BasicKeysOnly(fields: FieldList) {
    forall key :: Lookup(fields, key).Some? ==> key == Device || key == Threads || key == Blocks
  }

  /** The description of one basic per-device record: device "", threads [1], blocks [1]. */
  function BasicConfigDescription(): (r: FieldList)
    ensures DistinctKeys(r) && BasicKeysOnly(r)
    ensures Lookup(r, Device) == Some(Text(""))
    ensures Lookup(r, Threads) == Some(Numbers([1]))
    ensures Lookup(r, Blocks) == Some(Numbers([1]))
  {
    [Field(Device, Text("")), Field(Threads, Numbers([1])), Field(Blocks, Numbers([1]))]
  }

  /**
    The default basic per-device record: device "", threads [1], blocks [1],
    which is field for field what the basic description declares.
   */
  function BasicDefaultConfig(): (r: FieldList)
    ensures DistinctKeys(r) && BasicKeysOnly(r)
    ensures AgreesWith(r, BasicConfigDescription()) && AgreesWith(BasicConfigDescription(), r)
    ensures Lookup(r, Device) == Some(Text(""))
    ensures Lookup(r, Threads) == Some(Numbers([1]))
    ensures Lookup(r, Blocks) == Some(Numbers([1]))
  {
    [Field(Device, Text("")), Field(Threads, Numbers([1])), Field(Blocks, Numbers([1]))]
  }

  /**
    The description of one detailed per-device record of kernel `kernel`:
    `device` with default "" declared in front of the fields of the default
    record, so every other field defaults to the kernel's own sequence.
   */
  function DetailedConfigDescription(kernel: KernelDescription): (r: FieldList)
    ensures DistinctKeys(r)
    ensures Lookup(r, Device) == Some(Text(""))
    ensures DefaultsOf(r, kernel)
  {
    var record := DetailedDefaultConfig(kernel);
    PrefixedDescription(Field(Device, Text("")), record);
    [Field(Device, Text(""))] + record
  }

  /**
    The default detailed per-device record of kernel `kernel`: the kernel's six
    sequences under their names, each once, and no `device`.
   */
  function DetailedDefaultConfig(kernel: KernelDescription): (r: FieldList)
    ensures DistinctKeys(r)
    ensures forall f :: f in r ==> f.name != Device
    ensures Lookup(r, Device) == None
    ensures DefaultsOf(r, kernel)
  {
    var r := [ Field(Threads, Numbers(kernel.threads)),
               Field(Blocks, Numbers(kernel.blocks)),
               Field(MinThreads, Numbers(kernel.minThreads)),
               Field(MaxThreads, Numbers(kernel.maxThreads)),
               Field(MinBlocks, Numbers(kernel.minBlocks)),
               Field(MaxBlocks, Numbers(kernel.maxBlocks)) ];
    DetailedLayoutKeys(r);
    LaunchFields(r, kernel);
    BoundFields(r, kernel);
    LookupAbsent(r, Device, 0);
    r
  }

  /** The six-field detailed layout names each field once and never `device`. */
  lemma DetailedLayoutKeys(r: FieldList)
    requires |r| == 6
    requires r[0].name == Threads && r[1].name == Blocks && r[2].name == MinThreads
    requires r[3].name == MaxThreads && r[4].name == MinBlocks && r[5].name == MaxBlocks
    ensures DistinctKeys(r)
    ensures forall f :: f in r ==> f.name != Device
  {
  }

  /** Threads and blocks lead the six-field detailed layout. */
  lemma LaunchFields(r: FieldList, kernel: KernelDescription)
    requires |r| == 6
    requires r[0] == Field(Threads, Numbers(kernel.threads)) && r[1] == Field(Blocks, Numbers(kernel.blocks))
    ensures Lookup(r, Threads) == Some(Numbers(kernel.threads))
    ensures Lookup(r, Blocks) == Some(Numbers(kernel.blocks))
  {
    LookupAt(r, 0, Threads);
    LookupAt(r, 1, Blocks);
  }

  /** The four bounds follow threads and blocks in the six-field detailed layout. */
  lemma BoundFields(r: FieldList, kernel: KernelDescription)
    requires |r| == 6
    requires r[0].name == Threads && r[1].name == Blocks
    requires r[2] == Field(MinThreads, Numbers(kernel.minThreads)) && r[3] == Field(MaxThreads, Numbers(kernel.maxThreads))
    requires r[4] == Field(MinBlocks, Numbers(kernel.minBlocks)) && r[5] == Field(MaxBlocks, Numbers(kernel.maxBlocks))
    ensures Lookup(r, MinThreads) == Some(Numbers(kernel.minThreads))
    ensures Lookup(r, MaxThreads) == Some(Numbers(kernel.maxThreads))
    ensures Lookup(r, MinBlocks) == Some(Numbers(kernel.minBlocks))
    ensures Lookup(r, MaxBlocks) == Some(Numbers(kernel.maxBlocks))
  {
    LookupAt(r, 2, MinThreads);
    LookupAt(r, 3, MaxThreads);
    LookupAt(r, 4, MinBlocks);
    LookupAt(r, 5, MaxBlocks);
  }

  /**
    Registers the basic schema for every name: one entry per name, in order,
    each described by the basic record (only `device`, `threads` and `blocks`)
    and seeded with one default record that agrees with it in both directions
    and reads as device "", threads [1], blocks [1].
   */
  function FillBasicDescriptions(kernelNames: seq<string>): (r: KernelsDescription)
    ensures |r.kernels| == |kernelNames|
    ensures forall i :: 0 <= i < |kernelNames| ==> r.kernels[i].name == kernelNames[i]
    ensures forall i :: 0 <= i < |kernelNames| ==> |r.kernels[i].defaults| == 1
    ensures forall i :: 0 <= i < |kernelNames| ==> AgreesWith(r.kernels[i].defaults[0], r.kernels[i].description)
    ensures forall i :: 0 <= i < |kernelNames| ==> AgreesWith(r.kernels[i].description, r.kernels[i].defaults[0])
    ensures forall i :: 0 <= i < |kernelNames| ==> BasicKeysOnly(r.kernels[i].description)
    ensures forall i :: 0 <= i < |kernelNames| ==> ReadRule(r.kernels[i].defaults[0]) == Some(Rule("", [1], [1]))
  {
    var basic := BasicConfigDescription();
    BasicDefaultsAgree();
    KernelsDescription(seq(|kernelNames|, i requires 0 <= i < |kernelNames| =>
      KernelSchema(kernelNames[i], basic, [BasicDefaultConfig()])))
  }

  /**
    Registers the detailed schema for every kernel: one entry per kernel, in
    order, whose single default record agrees with the description and holds
    exactly the kernel's own six sequences.
   */
  function FillDetailedDescriptions(kernels: seq<KernelDescription>): (r: KernelsDescription)
    ensures |r.kernels| == |kernels|
    ensures forall i :: 0 <= i < |kernels| ==> r.kernels[i].name == kernels[i].name
    ensures forall i :: 0 <= i < |kernels| ==> |r.kernels[i].defaults| == 1
    ensures forall i :: 0 <= i < |kernels| ==> AgreesWith(r.kernels[i].defaults[0], r.kernels[i].description)
    ensures forall i :: 0 <= i < |kernels| ==> DefaultsOf(r.kernels[i].defaults[0], kernels[i])
    ensures forall i :: 0 <= i < |kernels| ==> ReadRule(r.kernels[i].defaults[0]).None?
    ensures forall i :: 0 <= i < |kernels| ==>
      ReadRule(WithDefaults(r.kernels[i].defaults[0], r.kernels[i].description))
        == Some(Rule("", kernels[i].threads, kernels[i].blocks))
  {
    KernelsDescription(seq(|kernels|, i requires 0 <= i < |kernels| => DetailedKernelSchema(kernels[i])))
  }

  /**
    The detailed schema entry of one kernel: its single default record agrees
    with its description, holds the kernel's six sequences, and reads as the
    rule ("", threads, blocks) only once completed with the description.
   */
  function DetailedKernelSchema(kernel: KernelDescription): (e: KernelSchema)
    ensures e.name == kernel.name && |e.defaults| == 1
    ensures AgreesWith(e.defaults[0], e.description)
    ensures DefaultsOf(e.defaults[0], kernel)
    ensures ReadRule(e.defaults[0]).None?
    ensures ReadRule(WithDefaults(e.defaults[0], e.description)) == Some(Rule("", kernel.threads, kernel.blocks))
  {
    DetailedDefaultsAgree(kernel);
    DetailedDefaultReadsAsRule(kernel);
    KernelSchema(kernel.name, DetailedConfigDescription(kernel), [DetailedDefaultConfig(kernel)])
  }

  /** `record` holds the six sequences of `kernel` under their field names. */
  ghost predicate DefaultsOf(record: FieldList, kernel: KernelDescription) {
    && Lookup(record, Threads) == Some(Numbers(kernel.threads))
    && Lookup(record, Blocks) == Some(Numbers(kernel.blocks))
    && Lookup(record, MinThreads) == Some(Numbers(kernel.minThreads))
    && Lookup(record, MaxThreads) == Some(Numbers(kernel.maxThreads))
    && Lookup(record, MinBlocks) == Some(Numbers(kernel.minBlocks))
    && Lookup(record, MaxBlocks) == Some(Numbers(kernel.maxBlocks))
  }

  /**
    The basic default record and the basic description agree field by field:
    device "", threads [1], blocks [1]; read as a rule, the record is that rule.
   */
  lemma BasicDefaultsAgree()
    ensures AgreesWith(BasicDefaultConfig(), BasicConfigDescription())
    ensures AgreesWith(BasicConfigDescription(), BasicDefaultConfig())
    ensures Lookup(BasicDefaultConfig(), Device) == Some(Text(""))
    ensures Lookup(BasicDefaultConfig(), Threads) == Some(Numbers([1]))
    ensures Lookup(BasicDefaultConfig(), Blocks) == Some(Numbers([1]))
    ensures ReadRule(BasicDefaultConfig()) == Some(Rule("", [1], [1]))
  {
  }

  /**
    The detailed default record agrees with the detailed description and both
    hold the kernel's own sequences; the description also declares `device`
    with default "", which the record leaves out.
   */
  lemma DetailedDefaultsAgree(kernel: KernelDescription)
    ensures AgreesWith(DetailedDefaultConfig(kernel), DetailedConfigDescription(kernel))
    ensures DefaultsOf(DetailedDefaultConfig(kernel), kernel)
    ensures DefaultsOf(DetailedConfigDescription(kernel), kernel)
    ensures Lookup(DetailedDefaultConfig(kernel), Device) == None
    ensures Lookup(DetailedConfigDescription(kernel), Device) == Some(Text(""))
  {
    PrefixedDescription(Field(Device, Text("")), DetailedDefaultConfig(kernel));
  }

  /**
    A record with distinct names agrees with the description that declares one
    further field in front of it; that field is found only in the description.
   */
  lemma PrefixedDescription(first: Field, record: FieldList)
    requires DistinctKeys(record)
    requires forall f :: f in record ==> f.name != first.name
    ensures AgreesWith(record, [first] + record)
    ensures Lookup(record, first.name) == None
    ensures Lookup([first] + record, first.name) == Some(first.value)
    ensures forall key :: key != first.name ==> Lookup([first] + record, key) == Lookup(record, key)
  {
    SelfAgrees(record);
    PrefixAgrees(record, first, record);
    LookupAppend([first], record, first.name);
    LookupAbsent(record, first.name, 0);
    forall key | key != first.name
      ensures Lookup([first] + record, key) == Lookup(record, key)
    {
      LookupAppend([first], record, key);
    }
  }

  /**
    Read as a rule, the detailed default record lacks its device; completed
    with the description's defaults, it reads as device "" with the kernel's
    threads and blocks.
   */
  lemma DetailedDefaultReadsAsRule(kernel: KernelDescription)
    ensures ReadRule(DetailedDefaultConfig(kernel)) == None
    ensures ReadRule(WithDefaults(DetailedDefaultConfig(kernel), DetailedConfigDescription(kernel)))
         == Some(Rule("", kernel.threads, kernel.blocks))
  {
    DetailedDefaultsAgree(kernel);
  }
}
