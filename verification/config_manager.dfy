/** The `ConfigManager` facade. It is built either from a file path, where it
    picks a format adapter by the path's ending or by type inference, or from
    an adapter the caller already holds. Every later call is handed unchanged
    to that adapter. The adapter itself is abstract: a state of type `A`
    together with the adapter's own get/set/save behaviour. */
module ConfigManagers {
  import opened Outcomes
  import opened Text
  import opened Dispatch
  import opened Inference

  /** The `config` field: a reference to an adapter, or null. */
  datatype Held<A> = Null | Ref(adapter: A)

  datatype ConfigManager<A> = ConfigManager(config: Held<A>)

  /** The exceptions the facade raises or lets through. */
  datatype Error =
    | UnexpectedFileType        // InvalidOperationException("Unexpected file type!")
    | AdapterThrew(route: Route) // the xml/ini/json adapter's constructor threw
    | NullReference             // a call through a facade that holds null

  /** What the file system and the assembly would do when handed one path
      string: the outcome of each format adapter's constructor and, for
      inference, the enumerated candidate types with their constructors'
      outcomes. */
  datatype Host<A> = Host(
    xml: Attempt<A>,
    ini: Attempt<A>,
    json: Attempt<A>,
    registry: seq<Candidate<A>>)

  /** A written file, as produced by an adapter's `Save`. */
  datatype FileWrite = FileWrite(path: string, text: string)

  /** The adapter's behaviour, left uninterpreted: the indexer's getter and
      setter, `GetValue`, `SetValue` and `Save`. Path interpretation, the
      absent-value result and the save target are the adapter's business. */
  datatype AdapterOps<!A> = AdapterOps(
    read: (A, string) -> Option<string>,
    write: (A, string, string) -> A,
    getValue: (A, seq<string>) -> Option<string>,
    setValue: (A, string, seq<string>) -> (bool, A),
    save: (A, Option<string>) -> FileWrite)

  /** The constructor outcome of the adapter a recognised suffix selects. */
  function RouteAttempt<A>(host: Host<A>, route: Route): Attempt<A>
    requires route != InferRoute
  {
    match route
    case XmlRoute => host.xml
    case IniRoute => host.ini
    case JsonRoute => host.json
  }

  /** `new ConfigManager(filePath)`. Only the branch is chosen on the
      lower-cased path; every constructor is handed `filePath` as written,
      so `hostOf` is applied to the original spelling. A recognised suffix
      calls that format's constructor and lets its exception through;
      otherwise type inference runs and a null result raises "Unexpected
      file type!". */
  function FromPath<A>(filePath: string, hostOf: string -> Host<A>): (r: Result<ConfigManager<A>, Error>)
    ensures r.Success? ==> r.value.config.Ref?
    ensures r == Failure(UnexpectedFileType) <==>
              SelectRoute(filePath) == InferRoute
              && var registry := hostOf(filePath).registry;
                 forall i, k :: 0 <= i < |registry| && Eligible(registry[i])
                                && 0 <= k < |registry[i].constructors|
                                ==> registry[i].constructors[k].Fail?
    ensures r.Failure? && r.error.AdapterThrew? ==>
              r.error.route == SelectRoute(filePath) && r.error.route != InferRoute
              && RouteAttempt(hostOf(filePath), r.error.route).Fail?
    ensures r.Failure? ==> !r.error.NullReference?
    ensures SelectRoute(filePath) != InferRoute ==>
              (r.Success? <==> RouteAttempt(hostOf(filePath), SelectRoute(filePath)).Ok?)
    ensures r.Success? && SelectRoute(filePath) != InferRoute ==>
              r.value.config.adapter == RouteAttempt(hostOf(filePath), SelectRoute(filePath)).adapter
    ensures r.Success? && SelectRoute(filePath) == InferRoute ==>
              var registry := hostOf(filePath).registry;
              exists i :: 0 <= i < |registry| && Eligible(registry[i])
                          && FirstSuccess(registry[i].constructors) == Some(r.value.config.adapter)
                          && forall j :: i < j < |registry| ==> Contribution(registry[j]).None?
  {
    var host := hostOf(filePath);
    var route := SelectRoute(filePath);
    if route != InferRoute then
      match RouteAttempt(host, route)
      case Ok(a) => Success(ConfigManager(Ref(a)))
      case Fail => Failure(AdapterThrew(route))
    else
      InferredMeaning(host.registry);
      match Inferred(host.registry)
      case Some(a) => Success(ConfigManager(Ref(a)))
      case None => Failure(UnexpectedFileType)
  }

  /** `new ConfigManager(configBase)`: the adapter is stored as given, with no
      null check. */
  function Wrap<A>(configBase: Held<A>): (m: ConfigManager<A>)
    ensures m.config == configBase
  {
    ConfigManager(configBase)
  }

  /** A file name whose ending names a format depends only on that format's
      constructor and never consults the assembly's types; one whose ending
      names none depends only on the candidate types and never calls the
      format adapters' constructors. */
  lemma InferenceRunsOnlyForUnknownEndings<A>(filePath: string, hostOf: string -> Host<A>, other: string -> Host<A>)
    ensures SelectRoute(filePath) != InferRoute
            && RouteAttempt(hostOf(filePath), SelectRoute(filePath))
               == RouteAttempt(other(filePath), SelectRoute(filePath))
            ==> FromPath(filePath, hostOf) == FromPath(filePath, other)
    ensures SelectRoute(filePath) == InferRoute
            && hostOf(filePath).registry == other(filePath).registry
            ==> FromPath(filePath, hostOf) == FromPath(filePath, other)
  {
  }

  /** Case-variant spellings take the same branch, but the adapter is built
      from the path as written: with constructors that record the path they
      are given, "A.XML" and "a.xml" yield different adapters. */
  lemma ConstructorsSeeOriginalPath()
    ensures FromPath("A.XML", (p: string) => Host(Ok(p), Fail, Fail, []))
            == Success(ConfigManager(Ref("A.XML")))
    ensures FromPath("a.xml", (p: string) => Host(Ok(p), Fail, Fail, []))
            == Success(ConfigManager(Ref("a.xml")))
  {
    assert Lower("A.XML") == "a.xml";
    assert Lower("a.xml") == "a.xml";
  }

  // ---------------------------------------------------------------------
  // Forwarding members. Each hands its arguments, unchanged, to the held
  // adapter and returns the adapter's answer; through a null reference each
  // raises NullReferenceException.

  /** The indexer's getter, `this[xPath]`. */
  function Index<A>(ops: AdapterOps<A>, m: ConfigManager<A>, xPath: string): (r: Result<Option<string>, Error>)
    ensures r.Failure? <==> m.config.Null?
    ensures r.Failure? ==> r.error == NullReference
    ensures r.Success? ==> r.value == ops.read(m.config.adapter, xPath)
  {
    match m.config
    case Null => Failure(NullReference)
    case Ref(a) => Success(ops.read(a, xPath))
  }

  /** The indexer's setter, `this[xPath] = value`. */
  function SetIndex<A>(ops: AdapterOps<A>, m: ConfigManager<A>, xPath: string, value: string): (r: Result<ConfigManager<A>, Error>)
    ensures r.Failure? <==> m.config.Null?
    ensures r.Failure? ==> r.error == NullReference
    ensures r.Success? ==> r.value.config == Ref(ops.write(m.config.adapter, xPath, value))
  {
    match m.config
    case Null => Failure(NullReference)
    case Ref(a) => Success(ConfigManager(Ref(ops.write(a, xPath, value))))
  }

  /** `GetValue(params string[] keys)`. */
  function GetValue<A>(ops: AdapterOps<A>, m: ConfigManager<A>, keys: seq<string>): (r: Result<Option<string>, Error>)
    ensures r.Failure? <==> m.config.Null?
    ensures r.Failure? ==> r.error == NullReference
    ensures r.Success? ==> r.value == ops.getValue(m.config.adapter, keys)
  {
    match m.config
    case Null => Failure(NullReference)
    case Ref(a) => Success(ops.getValue(a, keys))
  }

  /** `SetValue(value, params string[] keys)`, returning the adapter's flag. */
  function SetValue<A>(ops: AdapterOps<A>, m: ConfigManager<A>, value: string, keys: seq<string>): (r: Result<(bool, ConfigManager<A>), Error>)
    ensures r.Failure? <==> m.config.Null?
    ensures r.Failure? ==> r.error == NullReference
    ensures r.Success? ==>
              var (ok, a') := ops.setValue(m.config.adapter, value, keys);
              r.value == (ok, ConfigManager(Ref(a')))
  {
    match m.config
    case Null => Failure(NullReference)
    case Ref(a) =>
      var (ok, a') := ops.setValue(a, value, keys);
      Success((ok, ConfigManager(Ref(a'))))
  }

  /** `Save(filepath = null)`: the optional target goes to the adapter as is,
      and the adapter decides where and what to write. */
  function Save<A>(ops: AdapterOps<A>, m: ConfigManager<A>, filepath: Option<string> := None): (r: Result<FileWrite, Error>)
    ensures r.Failure? <==> m.config.Null?
    ensures r.Failure? ==> r.error == NullReference
    ensures r.Success? ==> r.value == ops.save(m.config.adapter, filepath)
  {
    match m.config
    case Null => Failure(NullReference)
    case Ref(a) => Success(ops.save(a, filepath))
  }

  /** `Save()` with no argument hands null to the adapter, which then falls
      back on its own source path. */
  lemma SaveDefaultsToNull<A>(ops: AdapterOps<A>, m: ConfigManager<A>)
    ensures Save(ops, m) == Save(ops, m, None)
    ensures m.config.Ref? ==> Save(ops, m) == Success(ops.save(m.config.adapter, None))
  {
  }

  // ---------------------------------------------------------------------
  // Transparency: a sequence of calls made through the facade behaves
  // exactly like the same calls made on the adapter directly.

  /** One call a client can make. */
  datatype Call =
    | IndexGet(xPath: string)
    | IndexSet(xPath: string, value: string)
    | GetValueCall(keys: seq<string>)
    | SetValueCall(value: string, keys: seq<string>)
    | SaveCall(filepath: Option<string>)

  /** What a call returns (or, for `Save`, writes). */
  datatype Reply = Value(text: Option<string>) | Done | Flag(ok: bool) | Wrote(file: FileWrite)

  /** A call made on the adapter itself, with no facade in between. */
  function Direct<A>(ops: AdapterOps<A>, a: A, call: Call): (Reply, A) {
    match call
    case IndexGet(p) => (Value(ops.read(a, p)), a)
    case IndexSet(p, v) => (Done, ops.write(a, p, v))
    case GetValueCall(keys) => (Value(ops.getValue(a, keys)), a)
    case SetValueCall(v, keys) =>
      var (ok, a') := ops.setValue(a, v, keys);
      (Flag(ok), a')
    case SaveCall(f) => (Wrote(ops.save(a, f)), a)
  }

  /** The same call made through the facade's members. */
  function Through<A>(ops: AdapterOps<A>, m: ConfigManager<A>, call: Call): Result<(Reply, ConfigManager<A>), Error> {
    match call
    case IndexGet(p) =>
      (match Index(ops, m, p)
       case Success(v) => Success((Value(v), m))
       case Failure(e) => Failure(e))
    case IndexSet(p, v) =>
      (match SetIndex(ops, m, p, v)
       case Success(m') => Success((Done, m'))
       case Failure(e) => Failure(e))
    case GetValueCall(keys) =>
      (match GetValue(ops, m, keys)
       case Success(v) => Success((Value(v), m))
       case Failure(e) => Failure(e))
    case SetValueCall(v, keys) =>
      (match SetValue(ops, m, v, keys)
       case Success((ok, m')) => Success((Flag(ok), m'))
       case Failure(e) => Failure(e))
    case SaveCall(f) =>
      (match Save(ops, m, f)
       case Success(w) => Success((Wrote(w), m))
       case Failure(e) => Failure(e))
  }

  function RunDirect<A>(ops: AdapterOps<A>, a: A, calls: seq<Call>): (seq<Reply>, A)
    decreases |calls|
  {
    if |calls| == 0 then ([], a)
    else
      var (reply, a') := Direct(ops, a, calls[0]);
      var (replies, last) := RunDirect(ops, a', calls[1..]);
      ([reply] + replies, last)
  }

  function RunThrough<A>(ops: AdapterOps<A>, m: ConfigManager<A>, calls: seq<Call>): Result<(seq<Reply>, ConfigManager<A>), Error>
    decreases |calls|
  {
    if |calls| == 0 then Success(([], m))
    else
      match Through(ops, m, calls[0])
      case Failure(e) => Failure(e)
      case Success((reply, m')) =>
        match RunThrough(ops, m', calls[1..])
        case Failure(e) => Failure(e)
        case Success((replies, last)) => Success(([reply] + replies, last))
  }

  /** The facade adds and hides nothing: any sequence of calls through a
      facade holding adapter `a` gives the replies and the final adapter
      state that the same calls give on `a` directly. */
  lemma {:induction false} FacadeIsTransparent<A>(ops: AdapterOps<A>, a: A, calls: seq<Call>)
    ensures RunThrough(ops, Wrap(Ref(a)), calls)
            == Success((RunDirect(ops, a, calls).0, Wrap(Ref(RunDirect(ops, a, calls).1))))
  {
    if |calls| > 0 {
      var (reply, a') := Direct(ops, a, calls[0]);
      assert Through(ops, Wrap(Ref(a)), calls[0]) == Success((reply, Wrap(Ref(a'))));
      FacadeIsTransparent(ops, a', calls[1..]);
    }
  }

  /** A facade wrapped around null fails with a null reference on its first
      call, and only an empty sequence of calls succeeds. */
  lemma NullFacadeFails<A>(ops: AdapterOps<A>, calls: seq<Call>)
    ensures RunThrough(ops, Wrap(Null), calls).Failure? <==> |calls| > 0
    ensures |calls| > 0 ==> RunThrough(ops, Wrap(Null), calls) == Failure(NullReference)
  {
  }

  /** A facade built from a path never holds null, so no sequence of calls
      through it fails with a null reference: every call reaches the
      adapter the constructor chose and answers as that adapter does. */
  lemma PathFacadeNeverFails<A>(ops: AdapterOps<A>, filePath: string, hostOf: string -> Host<A>, calls: seq<Call>)
    requires FromPath(filePath, hostOf).Success?
    ensures RunThrough(ops, FromPath(filePath, hostOf).value, calls).Success?
    ensures RunThrough(ops, FromPath(filePath, hostOf).value, calls).value.0
            == RunDirect(ops, FromPath(filePath, hostOf).value.config.adapter, calls).0
  {
    FacadeIsTransparent(ops, FromPath(filePath, hostOf).value.config.adapter, calls);
  }
}
