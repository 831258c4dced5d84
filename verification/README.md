# Kernel launch-configuration registry, modelled in Dafny

This project models the registry in
`HeterogeneousCore/KernelConfigurations/interface/KernelConfigurations.h`.
It is loaded once and queried many times. A `kernels` parameter tree lists, for each
kernel name, an ordered list of per-device rules. Each rule has a `device` regular expression,
a `threads` list and a `blocks` list. Given a device identifier such as
`cuda/sm_75/T4`, `getConfigsForDevice` picks for every kernel the first rule whose pattern is
found in the identifier, and turns that rule's lists into fixed `(x, y, z)` triples.
Kernels with no matching rule are left out of the result, and looking them up gives the
default `LaunchConfig`: an empty name, threads `(1, 1, 1)` and blocks `(1, 1, 1)`. The
schema builders publish, for every kernel, a record description and one default record.
Those must agree with each other.

Files and modules:

- `dimensions.dfy` (`Dimensions`): `uint32_t` values and the truncate-or-pad conversion to three components.
- `launch_config.dfy` (`LaunchConfiguration`): `LaunchConfig`, its default value, and the result map with first-insert-wins insertion and lookup with a default.
- `device_matching.dfy` (`DeviceMatching`): pattern matching. A search that raises `std::regex_error` never matches.
- `kernel_configurations.dfy` (`KernelConfigurations`): the store, the first-match rule scan, and resolution for one device.
- `resolution_properties.dfy` (`ResolutionProperties`): lemmas about resolution.
- `schema.dfy` (`Schema`): the basic and detailed descriptions and default records, as ordered field lists.
- `schema_defaults.dfy` (`SchemaDefaults`): what an unedited configuration resolves to.
- `lazy_reading.dfy` (`LazyReading`): resolution over the configured records read lazily, as the typed getters read them, including the getter that throws.
- `scenarios.dfy` (`Scenarios`): worked examples.
- `wrappers.dfy` (`Wrappers`): `Option`.

Modelling choices:

- The regular-expression engine is a parameter `search: (string, string) -> MatchResult`. It answers `Invalid` when a `std::regex_error` is raised, and `Bool(found)` otherwise. The error can come from compiling the pattern or from the search itself, so it may depend on the device. ECMAScript regex semantics are not modelled. The catch of `std::regex_error` becomes the `Invalid => false` branch.
- The `kernels` parameter set is a sequence of `Kernel(name, rules)` in parameter-name order. Before its records are read as rules, it is a sequence of `ConfiguredKernel(name, records)`, with each record an ordered field list. The names of a parameter set are unique. Lemmas that speak about one kernel by name assume this (`DistinctNames`).
- `LaunchConfigs` is a Dafny `map<string, LaunchConfig>` in place of the `unordered_map`.
- All operations are pure functions of immutable values. So resolution cannot change the store, and two calls with the same store and device give equal results.
- Unmatched kernels are omitted from the result, as the code does. Looking one up falls back to a default `LaunchConfig` whose dimensions are all ones (lines 16-17 and 28).
- The detailed default record (lines 144-153) sets no `device`, while the detailed description declares `device` with default `""` (line 134). Read as it stands, the record has no `device`, and reading it there is a missing-parameter error. Once the record is completed with the description's defaults, it reads as the rule `("", threads, blocks)`. The completion is `Schema.WithDefaults`, a simplified stand-in for the framework's parameter validation. The model states both facts. Whether the framework completes the record before `getConfigsForDevice` reads it is outside this header.

## Model

| member | source | states |
|---|---|---|
| Dimensions.CopyFrom | HeterogeneousCore/KernelConfigurations/interface/KernelConfigurations.h:110-112 | The copy loop, from index `i` on: components `i` up to `min(|input|, 3)` come from the input, and all other components keep their previous value. |
| Dimensions.ConvertToDimensions | HeterogeneousCore/KernelConfigurations/interface/KernelConfigurations.h:108-114 | Always three components. Component `i` equals `input[i]` when `i < |input|`, and is 1 otherwise. |
| Dimensions.ConvertIsPadThenTruncate | HeterogeneousCore/KernelConfigurations/interface/KernelConfigurations.h:108-114 | Conversion equals padding the input with `[1, 1, 1]` and keeping the first three components. |
| Dimensions.ConvertKeepsTriples | HeterogeneousCore/KernelConfigurations/interface/KernelConfigurations.h:108-114 | A three-component input is returned unchanged, so converting twice is the same as converting once. |
| Dimensions.ConvertIgnoresTail | HeterogeneousCore/KernelConfigurations/interface/KernelConfigurations.h:110 | Components after the third never affect the result. |
| LaunchConfiguration.InsertConfig | HeterogeneousCore/KernelConfigurations/interface/KernelConfigurations.h:22-24 | First insert wins. A taken name leaves the map unchanged. A fresh name adds exactly that config under its kernel name. Existing entries never change. |
| LaunchConfiguration.GetConfig | HeterogeneousCore/KernelConfigurations/interface/KernelConfigurations.h:26-29 | A present name returns its entry. A missing name returns a config with an empty name and all-ones threads and blocks. |
| LaunchConfiguration.InsertKeepsKeyed | HeterogeneousCore/KernelConfigurations/interface/KernelConfigurations.h:22-24 | Insertion keeps every entry stored under its own kernel name. |
| LaunchConfiguration.GetAfterInsert | HeterogeneousCore/KernelConfigurations/interface/KernelConfigurations.h:22-29 | After an insertion, a fresh name looks up to the inserted config and a taken name to the old entry. Every other name looks up as before. |
| LaunchConfiguration.InsertFirstWins | HeterogeneousCore/KernelConfigurations/interface/KernelConfigurations.h:22-24 | A second insertion under the same name is a no-op. |
| LaunchConfiguration.GetConfigFoundIff | HeterogeneousCore/KernelConfigurations/interface/KernelConfigurations.h:14-29 | In a keyed map, a lookup of a non-empty name returns a config carrying that name exactly when the name is present. Otherwise it returns the default. |
| DeviceMatching.DeviceMatches | HeterogeneousCore/KernelConfigurations/interface/KernelConfigurations.h:92-98 | Matches exactly when the search finds the pattern. A search that raises `std::regex_error`, whether compiling the pattern or matching, gives `false` and never an error. |
| KernelConfigurations.ParseLaunchConfig | HeterogeneousCore/KernelConfigurations/interface/KernelConfigurations.h:100-106 | The config carries the kernel's name. Its threads and blocks are the rule's lists truncated or padded to three. |
| KernelConfigurations.FirstMatchFrom | HeterogeneousCore/KernelConfigurations/interface/KernelConfigurations.h:54-59 | The scan with `break` returns the lowest index from `from` on whose pattern matches, or none when no rule from there matches. |
| KernelConfigurations.ResolveKernel | HeterogeneousCore/KernelConfigurations/interface/KernelConfigurations.h:54-59 | A kernel resolves exactly when some rule matches. It resolves to the config parsed from its first matching rule. |
| KernelConfigurations.Collect | HeterogeneousCore/KernelConfigurations/interface/KernelConfigurations.h:52-60 | The kernel loop keeps what was already inserted. Every new key is a name that some kernel resolves to, and its value is the first such resolution. |
| KernelConfigurations.GetConfigsForDevice | HeterogeneousCore/KernelConfigurations/interface/KernelConfigurations.h:50-62 | A name is in the result exactly when a kernel of that name resolves on the device. Its entry is the first such resolution. |
| ResolutionProperties.FirstResolvedOfDistinct | HeterogeneousCore/KernelConfigurations/interface/KernelConfigurations.h:52-59 | With unique names, the entry for a kernel's name is that kernel's own resolution. |
| ResolutionProperties.KeysAreKernelNames | HeterogeneousCore/KernelConfigurations/interface/KernelConfigurations.h:52-56 | The result's keys are a subset of the store's kernel names, and each entry's `kernelName` is its key. |
| ResolutionProperties.FirstMatchWins | HeterogeneousCore/KernelConfigurations/interface/KernelConfigurations.h:54-59 | If rule `j` of kernel `i` is the first to match, then the kernel is in the result and `getConfig` returns the config parsed from rule `j`. |
| ResolutionProperties.ResolvedIff | HeterogeneousCore/KernelConfigurations/interface/KernelConfigurations.h:54-59 | A declared kernel is in the result if and only if one of its rules matches the device. |
| ResolutionProperties.UnresolvedGetsDefault | HeterogeneousCore/KernelConfigurations/interface/KernelConfigurations.h:50-62 | A kernel with no matching rule, including one with no rules, has no entry. Looking it up gives the default config. |
| ResolutionProperties.UnknownKernelGetsDefault | HeterogeneousCore/KernelConfigurations/interface/KernelConfigurations.h:26-29 | A name the store does not declare has no entry and looks up as the default config. |
| ResolutionProperties.LaterRulesIgnored | HeterogeneousCore/KernelConfigurations/interface/KernelConfigurations.h:54-59 | Replacing all rules after the first match by anything leaves the kernel's resolution unchanged. |
| ResolutionProperties.NonMatchingRuleSkipped | HeterogeneousCore/KernelConfigurations/interface/KernelConfigurations.h:54-59 | Removing a rule that does not match leaves the kernel's resolution unchanged. |
| ResolutionProperties.InvalidPatternSkipped | HeterogeneousCore/KernelConfigurations/interface/KernelConfigurations.h:92-98 | A rule whose search raises `std::regex_error` resolves as if it were absent, and later rules are still tried. |
| ResolutionProperties.OtherKernelIsolated | HeterogeneousCore/KernelConfigurations/interface/KernelConfigurations.h:52-60 | Changing one kernel's rules, for example to malformed patterns, changes neither membership nor lookup of any other name. |
| ResolutionProperties.OrderIndependent | HeterogeneousCore/KernelConfigurations/interface/KernelConfigurations.h:52 | With unique names, the order of kernels in the store does not affect the result. |
| ResolutionProperties.ResolutionDeterministic | HeterogeneousCore/KernelConfigurations/interface/KernelConfigurations.h:50-62 | The result is the only map keyed and valued as resolution describes. So it depends on the store and the device alone. |
| Schema.ReadRule | HeterogeneousCore/KernelConfigurations/interface/KernelConfigurations.h:103-104 | A record reads as a rule exactly when it holds `device` as text and `threads` and `blocks` as lists. The rule holds those values. |
| Schema.BasicConfigDescription | HeterogeneousCore/KernelConfigurations/interface/KernelConfigurations.h:116-122 | The basic description declares each name once, only `device`, `threads` and `blocks`, with defaults `""`, `[1]` and `[1]`. |
| Schema.BasicDefaultConfig | HeterogeneousCore/KernelConfigurations/interface/KernelConfigurations.h:124-130 | The basic default record holds each name once, only `device`, `threads` and `blocks`, with values `""`, `[1]` and `[1]`. It agrees with the basic description in both directions. |
| Schema.DetailedConfigDescription | HeterogeneousCore/KernelConfigurations/interface/KernelConfigurations.h:132-142 | The detailed description declares each name once. `device` defaults to `""`, and the other six names default to the kernel's own threads, blocks and min/max sequences. |
| Schema.DetailedDefaultConfig | HeterogeneousCore/KernelConfigurations/interface/KernelConfigurations.h:144-153 | The detailed default record holds each name once: the kernel's six sequences and no `device`. |
| Schema.FillBasicDescriptions | HeterogeneousCore/KernelConfigurations/interface/KernelConfigurations.h:64-74 | There is one entry per kernel name, in order. Each registers a description holding only `device`, `threads` and `blocks`, and a single default record. Record and description agree in both directions, and the record reads as `("", [1], [1])`. |
| Schema.FillDetailedDescriptions | HeterogeneousCore/KernelConfigurations/interface/KernelConfigurations.h:76-87 | There is one entry per kernel, in order. Each has a single default record that agrees with the description and holds the kernel's six sequences. |
| Schema.DetailedKernelSchema | HeterogeneousCore/KernelConfigurations/interface/KernelConfigurations.h:81-83 | A kernel's detailed entry has one default record. That record agrees with the description and holds the kernel's six sequences. It reads as `("", threads, blocks)` only once completed with the description. |
| Schema.BasicDefaultsAgree | HeterogeneousCore/KernelConfigurations/interface/KernelConfigurations.h:116-130 | The basic description and the basic default record agree in both directions: `device` is `""`, `threads` is `[1]` and `blocks` is `[1]`. |
| Schema.DetailedDefaultsAgree | HeterogeneousCore/KernelConfigurations/interface/KernelConfigurations.h:132-153 | Every field of the detailed default record is declared by the description with the same value. Both hold the kernel's threads, blocks and min/max sequences. Only the description declares `device`, with `""`. |
| Schema.DetailedDefaultReadsAsRule | HeterogeneousCore/KernelConfigurations/interface/KernelConfigurations.h:144-153 | The detailed default record alone lacks a device. Completed with the description's defaults, it reads as `("", threads, blocks)`. |
| SchemaDefaults.ReadStore | HeterogeneousCore/KernelConfigurations/interface/KernelConfigurations.h:52-55 | Reading a configured tree eagerly gives one kernel per configured kernel, in order, whose rules are its records read as rules. It fails when any record cannot be read. |
| SchemaDefaults.BasicDefaultStore | HeterogeneousCore/KernelConfigurations/interface/KernelConfigurations.h:64-74 | An unedited basic configuration gives each listed kernel the single rule `("", [1], [1])`. |
| SchemaDefaults.UneditedBasicGivesDefaultDimensions | HeterogeneousCore/KernelConfigurations/interface/KernelConfigurations.h:124-130 | On any device, an unedited basic configuration launches every listed kernel with the default dimensions. It is the named all-ones config when the empty pattern matches, and the default config otherwise. |
| SchemaDefaults.DefaultRuleResolves | HeterogeneousCore/KernelConfigurations/interface/KernelConfigurations.h:54-59 | A kernel whose only rule is the basic default resolves to its named all-ones config when the empty pattern matches. Otherwise it looks up as the default config. |
| SchemaDefaults.DetailedDefaultsNeedCompletion | HeterogeneousCore/KernelConfigurations/interface/KernelConfigurations.h:144-153 | The detailed default records do not read as a store. Each one, completed with its description, reads as device `""` with the kernel's threads and blocks. |
| LazyReading.ScanRecords | HeterogeneousCore/KernelConfigurations/interface/KernelConfigurations.h:54-59 | A kernel's scan finds nothing exactly when every record holds a `device` text that does not match. A configuration it finds carries the kernel's name. |
| LazyReading.ScanStopsAt | HeterogeneousCore/KernelConfigurations/interface/KernelConfigurations.h:54-59 | The scan is decided by the first record it does not move past. That record gives its parsed configuration if it holds all three fields and its pattern matches. Otherwise the getter throws. |
| LazyReading.ScanIgnoresLaterRecords | HeterogeneousCore/KernelConfigurations/interface/KernelConfigurations.h:54-59 | Once the scan has found a configuration or thrown, records appended after it are never read. |
| LazyReading.ScanMatchesResolve | HeterogeneousCore/KernelConfigurations/interface/KernelConfigurations.h:54-59 | On records that all read as rules, the lazy scan gives exactly the resolution of those rules. |
| LazyReading.LazyCollect | HeterogeneousCore/KernelConfigurations/interface/KernelConfigurations.h:52-60 | The kernel loop gives nothing exactly when the scan of some kernel throws. Otherwise it keeps what was already inserted. A new name is present exactly when the scan of a kernel of that name finds a configuration, and it maps to the first one found. |
| LazyReading.LazyAgreesWithEager | HeterogeneousCore/KernelConfigurations/interface/KernelConfigurations.h:52-60 | On records that all read as rules, the lazy kernel loop gives what the loop over the read store gives. |
| LazyReading.LazyConfigsForDevice | HeterogeneousCore/KernelConfigurations/interface/KernelConfigurations.h:50-62 | Lazy resolution gives nothing exactly when some kernel's scan reaches a record it cannot read. Otherwise a name is present exactly when the scan of a kernel of that name finds a configuration, and it maps to the first one found, even when records the scan never reaches are malformed. When every record is readable, it gives the same configurations as resolution over the read store. |
| Scenarios.ConvertExamples | HeterogeneousCore/KernelConfigurations/interface/KernelConfigurations.h:108-114 | `[8]` gives `(8, 1, 1)`, `[4, 4, 4, 4]` gives `(4, 4, 4)` and `[]` gives `(1, 1, 1)`. |
| Scenarios.FirstMatchExample | HeterogeneousCore/KernelConfigurations/interface/KernelConfigurations.h:54-59 | With rules `a.*` then `.*`, `abc` takes the first rule and `xyz` takes the catch-all. |
| Scenarios.InvalidPatternExample | HeterogeneousCore/KernelConfigurations/interface/KernelConfigurations.h:92-98 | A rule with pattern `((` is skipped, and the following rule applies. |
| Scenarios.PartialRecordsExample | HeterogeneousCore/KernelConfigurations/interface/KernelConfigurations.h:54-59 | The second record lacks `device`, so the records do not read as a store. On a device that `x` matches, `k` still resolves to all ones. On any other device the scan reaches that record and throws. |
| Scenarios.T4ExampleResolves | HeterogeneousCore/KernelConfigurations/interface/KernelConfigurations.h:50-62 | On `cuda/sm_75/T4`, `findClus` gets threads `(64, 1, 1)` and blocks `(1, 1, 1)`. `kernel_connect` is absent and looks up as the default. |

## Left out

- `RecoPixelVertexing/PixelTriplets/plugins/CAHitNtupletCUDA.cc` is framework plumbing and is not modelled. It covers event access, the CUDA context, device choice and the construction of the device string. It also calls `init`, `fillKernelDescriptions` and `LaunchConfigsVector`, which the header does not define.
- The regular-expression engine: matching is the `search` parameter, so ECMAScript semantics are not modelled.
- The constructor's `getParameter("kernels")`, and the getter for a kernel's record list: the configured tree is given as kernels with their records. A getter that throws is modelled only for the three per-record fields, as the scan outcome `Throws` in `LazyReading`. The exception's type and message are not modelled.
- SchemaDefaults.ReadStore: an eager stand-in for the lazy getters. It fails when any record lacks a field, while the source reads `device` only up to the first match and `threads` and `blocks` only of the matched record. `LazyReading.LazyConfigsForDevice` models the lazy reading. `LazyReading.LazyAgreesWithEager` shows the two agree whenever `ReadStore` succeeds.
- The sorted order in which a parameter set lists its names: the store is a sequence in any order. `ResolutionProperties.OrderIndependent` shows that the order cannot matter when names are unique.
- `unordered_map` hashing and iteration order: the result is a Dafny `map`.
- The internals of `ParameterSetDescription`, including validation, `addVPSet` and the `desc.add("kernels", ...)` side effect. The builders return the registered field lists as values instead. `Schema.WithDefaults` only approximates how the framework inserts missing defaults.
- The `KernelDescription` bounds (`minThreads`, `maxThreads`, `minBlocks`, `maxBlocks`) appear only in the schema. Resolution never reads them, just as in the source.
- Integer width: rule values have the range of the C++ `uint32_t` and are only copied. No arithmetic is done on them, so wrap-around cannot arise.
