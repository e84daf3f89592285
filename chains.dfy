/**
 * The chain registry lookup and the rendering of the `cw3d.config.ts`
 * template: four `replace` calls, one per placeholder, in a fixed order.
 */
module Chains {
  import opened Wrappers
  import opened JsString

  /** One entry of the chain registry. */
  datatype ChainConfig = ChainConfig(
    shortName: string,
    mainnetName: string,
    mainnetChainId: string,
    testnetChainId: string,
    testnetChainName: string)

  /** `i` is the index of the first registry entry whose short name is `name`. */
  ghost predicate FirstMatch(registry: seq<ChainConfig>, name: string, i: nat)
  {
    i < |registry| && registry[i].shortName == name &&
    forall j: nat :: j < i ==> registry[j].shortName != name
  }

  /** The index of the first entry at or after `from` whose short name is `name`. */
  function FindFrom(registry: seq<ChainConfig>, name: string, from: nat): (r: Option<nat>)
    decreases |registry| - from
    ensures r.Some? ==> from <= r.value < |registry| && registry[r.value].shortName == name
    ensures r.Some? ==> forall j: nat :: from <= j < r.value ==> registry[j].shortName != name
    ensures r.None? ==> forall j: nat :: from <= j < |registry| ==> registry[j].shortName != name
  {
    if from >= |registry| then None
    else if registry[from].shortName == name then Some(from)
    else FindFrom(registry, name, from + 1)
  }

  /**
   * `CHAIN_CONFIGS.find((c) => c.shortName === name)`: the first entry whose
   * short name equals `name` exactly, or nothing (JavaScript's `undefined`).
   */
  function FindChain(registry: seq<ChainConfig>, name: string): (r: Option<ChainConfig>)
    ensures r.None? <==> forall j: nat :: j < |registry| ==> registry[j].shortName != name
    ensures r.Some? ==> exists i: nat :: FirstMatch(registry, name, i) && registry[i] == r.value
  {
    match FindFrom(registry, name, 0)
    case None => None
    case Some(i) =>
      assert FirstMatch(registry, name, i);
      Some(registry[i])
  }

  /** The four fields of a chain that the template refers to. */
  datatype Field = MainnetName | MainnetChainId | TestnetChainId | TestnetChainName

  function Name(f: Field): string
  {
    match f
    case MainnetName => "mainnetName"
    case MainnetChainId => "mainnetChainId"
    case TestnetChainId => "testnetChainId"
    case TestnetChainName => "testnetChainName"
  }

  /** The placeholder token of a field, such as `{{mainnetName}}`. */
  function Placeholder(f: Field): string
  {
    "{{" + Name(f) + "}}"
  }

  /** The value a chain gives to a field. */
  function Value(c: ChainConfig, f: Field): string
  {
    match f
    case MainnetName => c.mainnetName
    case MainnetChainId => c.mainnetChainId
    case TestnetChainId => c.testnetChainId
    case TestnetChainName => c.testnetChainName
  }

  /**
   * The config text for `chain`: the template passed through four `replace`
   * calls, in the order mainnetName, mainnetChainId, testnetChainId,
   * testnetChainName. Both the project set-up and the config update render
   * through this one function.
   */
  function Render(template: string, chain: ChainConfig): (r: string)
    ensures (forall f: Field :: !Occurs(template, Placeholder(f))) ==> r == template
  {
    Replace(
      Replace(
        Replace(
          Replace(template, Placeholder(MainnetName), chain.mainnetName),
          Placeholder(MainnetChainId), chain.mainnetChainId),
        Placeholder(TestnetChainId), chain.testnetChainId),
      Placeholder(TestnetChainName), chain.testnetChainName)
  }
}
