# UnifiedConfig dispatch layer, in Dafny

This project models the `ConfigManager` facade of UnifiedConfig
(`UnifiedConfig/ConfigManager.cs`). The facade is the single entry point for
reading and writing a configuration file, whatever its format. It has three
parts:

- **Adapter selection by path.** `ConfigManager(string filePath)` lower-cases
  the path and tests whether it ends with `"xml"`, `"ini"` or `"json"`, in that
  order, to choose the format adapter. The test is a plain suffix test, so
  `"a.myxml"` selects XML. Any other ending goes to type inference. A null
  result raises `InvalidOperationException("Unexpected file type!")`.
- **Type inference.** Every type whose direct base type is `XmlConfig` is
  tried. Its constructors are invoked with the path in order, each exception
  is swallowed, and the first constructor that returns ends that type's
  loop. The outer loop never stops early. So the result is the adapter of
  the *last* eligible type that constructed one, or null if none did.
- **Forwarding.** `ConfigManager(ConfigBase)` stores the adapter it is given,
  with no null check. The indexer, `GetValue`, `SetValue` and `Save` hand
  their arguments unchanged to the held adapter and return its answer.

Modules:

- `Outcomes` (`outcomes.dfy`): `Option` stands for a possibly-null reference;
  `Result` stands for a call that returns or throws.
- `Text` (`text.dfy`): ASCII `Lower`/`Upper` and ordinal `EndsWith`.
- `Dispatch` (`dispatch.dfy`): `SelectRoute`, the branch the path constructor takes.
- `Inference` (`inference.dfy`): candidates and constructor outcomes.
  `FirstSuccess` models the inner loop and `Inferred` the whole loop, as
  functions. `FirstSuccessMeaning` and `InferredMeaning` state what they
  compute in terms of the candidates alone. `TypeInference` is the nested
  loop as written, and it is proved equal to `Inferred`.
- `ConfigManagers` (`config_manager.dfy`): the facade. It holds the
  path constructor `FromPath`, the wrapping constructor `Wrap` and the
  forwarding members. It also shows that a whole sequence of calls through
  the facade behaves like the same calls on the adapter itself.

Modelling choices:

- Reflection is replaced by an explicit ordered list of `Candidate`s. Each
  candidate has a base-type tag and the outcome (`Ok(adapter)` or `Fail`)
  that each declared constructor would have when invoked with the path.
- The file system is replaced by a function `hostOf` from a path string to
  a `Host` value. The `Host` gives the outcome of the XML, INI and JSON
  adapters' constructors when handed that string, plus the candidate list.
  The branch is chosen on the lower-cased path, but `hostOf` is applied to
  the path as written, because the constructors receive the original
  spelling.
- The adapter is a type parameter `A`. Its getter, setter, `GetValue`,
  `SetValue` and `Save` are uninterpreted function values in `AdapterOps<A>`.
- The `config` field is `Held<A>`, either `Null` or `Ref(adapter)`. A call
  through a facade that holds `Null` raises `NullReference`.
- An exception thrown by the XML, INI or JSON constructor propagates out of
  the facade's constructor unchanged. The model reports it as
  `AdapterThrew(route)`.

Type inference is modelled as written: the last success wins. `FirstWinner`
is the other reading, in which the first type that constructs an adapter is
adopted. `InferredAgreesWithFirstWinner` proves that the two agree whenever at
most one candidate can construct an adapter. `LastSuccessWinsExample` shows
three candidates where they differ.

The three recognised suffixes end in different characters. So no path ends
with two of them, and the order of the three tests cannot change the result
(`Dispatch.SuffixesDisjoint`).

## Model

| member | source | states |
|---|---|---|
| Text.LowerIdentifiesCase | UnifiedConfig/ConfigManager.cs:24 | two paths have the same lower-case label if and only if they agree up to letter case |
| Text.LowerAfterUpper | UnifiedConfig/ConfigManager.cs:24 | upper-casing a path first does not change its label |
| Text.EndsWithIffSplit | UnifiedConfig/ConfigManager.cs:25 | the suffix test holds exactly when the label is some prefix followed by the suffix, so it is not an extension test |
| Dispatch.SuffixesDisjoint | UnifiedConfig/ConfigManager.cs:25-36 | no label ends with two of "xml", "ini", "json", so the order of the tests cannot matter |
| Dispatch.SelectRoute | UnifiedConfig/ConfigManager.cs:24-41 | the XML, INI or JSON branch is taken if and only if the lower-cased path ends with that suffix; inference runs if and only if it ends with none of them |
| Dispatch.RouteIgnoresCase | UnifiedConfig/ConfigManager.cs:24-36 | paths equal up to letter case, and a path and its upper-case form, take the same branch |
| Dispatch.RouteDependsOnlyOnEnding | UnifiedConfig/ConfigManager.cs:25-36 | prefixing a path of four or more characters never changes its branch |
| Dispatch.SuffixNotExtension | UnifiedConfig/ConfigManager.cs:25-36 | "a.myxml" selects XML and "settingsjson" selects JSON: the test is on the ending, not on a dot extension |
| Dispatch.UpperCaseExtension | UnifiedConfig/ConfigManager.cs:24-31 | "app.INI" selects INI |
| Dispatch.UnknownExtension | UnifiedConfig/ConfigManager.cs:37-41 | "app.cfg" goes to type inference |
| Inference.FirstSuccessMeaning | UnifiedConfig/ConfigManager.cs:62-73 | a type's constructor loop (`FirstSuccess`) yields nothing if and only if every constructor throws; otherwise it yields the adapter of a returning constructor that has only throwing ones before it |
| Inference.FirstSuccessAt | UnifiedConfig/ConfigManager.cs:62-73 | a returning constructor preceded only by throwing ones is the one the loop settles on |
| Inference.LaterConstructorsIgnored | UnifiedConfig/ConfigManager.cs:66-67 | after a constructor returns, the constructors declared after it have no effect (the break) |
| Inference.InferredMeaning | UnifiedConfig/ConfigManager.cs:54-77 | inference (`Inferred`) returns null if and only if no type based on XmlConfig has a returning constructor; otherwise it returns the contribution of a type after which no type contributes, i.e. the last success |
| Inference.TypeInference | UnifiedConfig/ConfigManager.cs:54-77 | the nested loops with break, swallowed exceptions and a never-reset result compute exactly `Inferred`, and a non-null result comes from an eligible type's first returning constructor |
| Inference.SilentCandidateIgnored | UnifiedConfig/ConfigManager.cs:58-75 | a type that contributes nothing, because it is ineligible or all its constructors throw, can be removed from anywhere in the enumeration without changing the result |
| Inference.IneligibleCandidateIgnored | UnifiedConfig/ConfigManager.cs:60 | a type whose base type is not XmlConfig never affects the result |
| Inference.LaterSuccessOverrides | UnifiedConfig/ConfigManager.cs:56-76 | a type that constructs an adapter overrides every type enumerated before it |
| Inference.FirstWinnerMeaning | UnifiedConfig/ConfigManager.cs:56-76 | the first-success reading of inference, which the loop as written does not follow: under it the result is null exactly when no candidate contributes, and otherwise comes from a candidate before which none contributes |
| Inference.InferredAgreesWithFirstWinner | UnifiedConfig/ConfigManager.cs:56-76 | with at most one succeeding type, last-success and first-success readings coincide |
| Inference.LastSuccessWinsExample | UnifiedConfig/ConfigManager.cs:56-76 | with two succeeding eligible types the loop keeps the second, where a first-success reading keeps the first |
| ConfigManagers.FromPath | UnifiedConfig/ConfigManager.cs:22-44 | a constructed facade never holds null; "Unexpected file type!" is raised if and only if the path has no recognised ending and no eligible type constructs; a recognised ending succeeds exactly when its adapter's constructor returns, and otherwise that constructor's exception propagates; every constructor is handed the path as written, not its lower-cased form |
| ConfigManagers.InferenceRunsOnlyForUnknownEndings | UnifiedConfig/ConfigManager.cs:25-41 | with a recognised ending the result depends only on that format's constructor, never on the candidate types; with an unrecognised one it depends only on the candidate types |
| ConfigManagers.ConstructorsSeeOriginalPath | UnifiedConfig/ConfigManager.cs:24-27 | "A.XML" and "a.xml" take the same branch, yet the adapter is built from the spelling as given, so constructors that record their path yield different adapters |
| ConfigManagers.Wrap | UnifiedConfig/ConfigManager.cs:49-52 | the supplied adapter is stored as given, null included |
| ConfigManagers.Index | UnifiedConfig/ConfigManager.cs:86-91 | the indexer's getter returns the adapter's answer for the same path, and raises NullReference only when the facade holds null |
| ConfigManagers.SetIndex | UnifiedConfig/ConfigManager.cs:92-95 | the indexer's setter leaves the facade holding exactly the adapter's updated state |
| ConfigManagers.GetValue | UnifiedConfig/ConfigManager.cs:103-106 | GetValue returns the adapter's answer for the same keys |
| ConfigManagers.SetValue | UnifiedConfig/ConfigManager.cs:122-125 | SetValue returns the adapter's flag and keeps its updated state |
| ConfigManagers.Save | UnifiedConfig/ConfigManager.cs:111-114 | Save passes the optional target (defaulting to null, as the C# default parameter does) to the adapter as is, returns the adapter's write, and raises NullReference only when the facade holds null |
| ConfigManagers.SaveDefaultsToNull | UnifiedConfig/ConfigManager.cs:111-113 | Save called with no argument hands null to the adapter |
| ConfigManagers.FacadeIsTransparent | UnifiedConfig/ConfigManager.cs:86-125 | any sequence of calls through a facade gives the same replies and final adapter state as the same calls on the adapter directly |
| ConfigManagers.NullFacadeFails | UnifiedConfig/ConfigManager.cs:49-52 | a facade wrapped around null raises a null reference on its first call |
| ConfigManagers.PathFacadeNeverFails | UnifiedConfig/ConfigManager.cs:42-43 | because a facade built from a path never holds null, no call through it fails with a null reference, and it answers as its adapter does |

## Left out

- Culture-sensitive `ToLower` and `EndsWith`: the model lower-cases ASCII letters only and tests suffixes ordinally. Under a Turkish culture, for example, `"A.INI".ToLower()` yields a dotless `ı`, and such a path would fall through to inference.
- A null `filePath`: `ToLower` would throw `NullReferenceException` before any dispatch. Dafny strings cannot be null.
- Null `value`, null `keys` arrays and null elements in `keys` are not modelled. They are forwarded unchanged, and what happens to them is the adapter's business.
- Reflection itself (`GetTypeInfo().Assembly`, `DefinedTypes`, `DeclaredConstructors`, `Invoke`) is replaced by the explicit candidate list. So is any exception from the enumeration itself. The `as XmlConfig` cast always succeeds for a type based on `XmlConfig`, so it is not modelled separately.
- The format adapters (XPath evaluation, INI section/key lookup, JSON traversal, parsing and serialising) sit behind external libraries. They are the uninterpreted `AdapterOps`. Exceptions they raise inside `Get`, `Set` and `Save` pass through the facade unchanged, and the model does not represent them.
- The XML adapter `ConfigUtility/XmlConfigManager.cs` is not part of this model. Its constructor wraps `XDocument.Load`, and its `Save` writes the document with `ToIni()`, a writer for a different format than the one it was loaded from. That inconsistency is noted here and not modelled.
- File reads and writes: construction outcomes come in as the `Host`, and `Save` returns the `FileWrite` the adapter produces.
- Reference sharing: C# adapters are objects, so a caller who passed an adapter to `ConfigManager(ConfigBase)` sees mutations made through the facade. The model passes adapter states by value and returns the updated state instead.
- Thread safety: the facade is single-threaded.
