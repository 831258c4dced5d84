/**
  The resolved launch configuration of one kernel, and the name-keyed set of
  them that resolution produces (`LaunchConfig` and `LaunchConfigs` of `KernelConfigurations.h`).
 */
module LaunchConfiguration {
  import opened Dimensions

  /** Threads and blocks a kernel is launched with, labelled with the kernel's name. */
  datatype LaunchConfig = LaunchConfig(kernelName: string, threads: Dim3, blocks: Dim3)

  /** A default-constructed `LaunchConfig`: empty name, every dimension one. */
  const DefaultConfig: LaunchConfig := LaunchConfig("", Ones, Ones)

  /** The resolved configurations, looked up by kernel name. */
  type LaunchConfigs = map<string, LaunchConfig>

  /** Every entry is stored under its own kernel name. */
  ghost predicate Keyed(m: LaunchConfigs) {
    forall k :: k in m ==> m[k].kernelName == k
  }

  /** Adds `config` under its kernel name unless that name is taken (first insert wins). */
  function InsertConfig(m: LaunchConfigs, config: LaunchConfig): (r: LaunchConfigs)
    ensures config.kernelName in m ==> r == m
    ensures r.Keys == m.Keys + {config.kernelName}
    ensures config.kernelName !in m ==> r[config.kernelName] == config
    ensures forall k :: k in m ==> r[k] == m[k]
  {
    if config.kernelName in m then m else m[config.kernelName := config]
  }

  /** The configuration stored for `kernelName`, or the default one when there is none. */
  function GetConfig(m: LaunchConfigs, kernelName: string): (r: LaunchConfig)
    ensures kernelName in m ==> r == m[kernelName]
    ensures kernelName !in m ==> r.kernelName == "" && r.threads == [1, 1, 1] && r.blocks == [1, 1, 1]
  {
    if kernelName in m then m[kernelName] else DefaultConfig
  }

  /** Insertion keeps every entry under its own name. */
  lemma InsertKeepsKeyed(m: LaunchConfigs, config: LaunchConfig)
    requires Keyed(m)
    ensures Keyed(InsertConfig(m, config))
  {
  }

  /**
    Looking up after an insertion: a fresh name yields exactly the inserted
    config, a taken name yields what was there, and other names are untouched.
   */
  lemma GetAfterInsert(m: LaunchConfigs, config: LaunchConfig, k: string)
    ensures k == config.kernelName && k !in m ==> GetConfig(InsertConfig(m, config), k) == config
    ensures k == config.kernelName && k in m ==> GetConfig(InsertConfig(m, config), k) == m[k]
    ensures k != config.kernelName ==> GetConfig(InsertConfig(m, config), k) == GetConfig(m, k)
  {
  }

  /** A second insertion under the same name changes nothing. */
  lemma InsertFirstWins(m: LaunchConfigs, first: LaunchConfig, second: LaunchConfig)
    requires first.kernelName == second.kernelName
    ensures InsertConfig(InsertConfig(m, first), second) == InsertConfig(m, first)
  {
  }

  /**
    In a keyed map, a lookup returns a config carrying the requested non-empty
    name exactly when that name is present; otherwise it returns the default.
   */
  lemma GetConfigFoundIff(m: LaunchConfigs, kernelName: string)
    requires Keyed(m)
    requires kernelName != ""
    ensures GetConfig(m, kernelName).kernelName == kernelName <==> kernelName in m
    ensures kernelName !in m <==> GetConfig(m, kernelName) == DefaultConfig
  {
  }
}
