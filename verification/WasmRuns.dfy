/** The credential cache of the WASM gateway over whole runs: services come and go, the
    production configuration changes, clients are handed out, and any remote call may fail. */
module WasmRuns {
  import opened Wrappers
  import opened Json
  import opened JsonPointer
  import opened JsonPatch
  import opened PatchScripts
  import opened WasmScripts

  // ----- From production configuration to credentials

  datatype AuthMethod = UserKey | AppIdKey | Oidc | OtherMethod

  /** The members of config["content"]["proxy"] that are read. */
  datatype ProxyConfig = ProxyConfig(appId: string, appKey: string, userKey: string, location: string,
          method_: AuthMethod)

  function WasmLocation(location: string): Option<string> {
    if location == "query" then Some("query_string")
    else if location == "headers" then Some("header")
    else if location == "authorization" then Some("authorization")
    else None
  }

  /** An unknown location raises KeyError, whatever the authentication method. */
  function CredentialsOf(config: ProxyConfig): Result<seq<Credential>, Raised> {
    var location := WasmLocation(config.location);
    if location.None? then Err(KeyError)
    else match config.method_
      case UserKey => Ok([Credential("user_key", location.value, Some(config.userKey))])
      case AppIdKey => Ok([Credential("app_id", location.value, Some(config.appId)),
                           Credential("app_key", location.value, Some(config.appKey))])
      case Oidc => Ok([Credential("app_id", "oidc", None)])
      case OtherMethod => Ok([])
  }

  /** The guard a caller can check: no basic-authorization location for key credentials. */
  predicate SupportedConfig(config: ProxyConfig) {
    config.location == "query" || config.location == "headers" ||
    (config.location == "authorization" && !config.method_.UserKey? && !config.method_.AppIdKey?)
  }

  lemma {:induction false} SupportedConfigExact(config: ProxyConfig)
    ensures SupportedConfig(config) <==>
            CredentialsOf(config).Ok? && Supported(CredentialsOf(config).value)
    ensures CredentialsOf(config).Ok? ==> Labelled(CredentialsOf(config).value)
  {
    if CredentialsOf(config).Ok? && !SupportedConfig(config) {
      assert Translate(CredentialsOf(config).value[0]).Err?;
    }
  }

  // ----- One extension

  /** The deployed plugin document, the cached credentials, and whether a credential patch
      is still waiting for its rollout. */
  datatype Extension = Extension(document: Value, cache: Option<seq<Credential>>, pending: bool)

  predicate ShouldPatch(ext: Extension, creds: seq<Credential>) {
    ext.cache.None? || ext.cache.value == [] || ext.cache.value != creds
  }

  /** `replace_credentials`: a script that cannot be built, or is refused, changes nothing. */
  function Replace(base: string, ext: Extension, creds: seq<Credential>, up: bool): (Extension, Result<bool, Raised>) {
    var script := ReplaceCredentials(base, creds);
    if script.Err? then (ext, Err(script.error))
    else if !up then (ext, Err(Unreachable))
    else
      var patched := ApplyAll(ext.document, script.value);
      if patched.None? then (ext, Err(Rejected))
      else (ext.(document := patched.value, pending := true), Ok(true))
  }

  /** `synchronise_credentials`: the cache is assigned before anything is deployed. */
  function Synchronise(base: string, ext: Extension, config: ProxyConfig, up: bool): (Extension, Result<bool, Raised>) {
    var creds := CredentialsOf(config);
    if creds.Err? then (ext, Err(creds.error))
    else if ShouldPatch(ext, creds.value) then Replace(base, ext.(cache := Some(creds.value)), creds.value, up)
    else (ext, Ok(false))
  }

  /** `_create_api_client`: a rollout follows a patch; Ok means a client is handed out. */
  function CreateClient(base: string, ext: Extension, config: ProxyConfig, up: bool, rolls: bool): (Extension,
          Result<bool, Raised>) {
    var (synced, result) := Synchronise(base, ext, config, up);
    if result.Err? || !result.value then (synced, result)
    else if rolls then (synced.(pending := false), Ok(true))
    else (synced, Err(Unreachable))
  }

  /** A client handed out now sees exactly these credentials. */
  predicate Serves(ext: Extension, at: Tokens, creds: seq<Credential>) {
    Deploys(ext.document, at, creds) && !ext.pending
  }

  // ----- Single calls

  /** Once a client was handed out for non-empty credentials, asking again with the same
      configuration changes nothing and hands out another, whether or not the server answers. */
  lemma {:induction false} RepeatedCallIsQuiet(base: string, ext: Extension, config: ProxyConfig, up: bool,
          rolls: bool, up': bool, rolls': bool)
    requires CredentialsOf(config).Ok? && CredentialsOf(config).value != []
    ensures var (next, result) := CreateClient(base, ext, config, up, rolls);
      CreateClient(base, next, config, up', rolls') == (next, Ok(false))
  {
  }

  /** A patch attempt succeeds exactly when the configuration is supported and both remote calls
      succeed. Whether a client handed out from then on sees the credentials depends on how far
      the attempt got: after a patch on its rollout, without one on what was deployed before. */
  lemma {:induction false} AttemptExact(base: string, at: Tokens, ext: Extension, config: ProxyConfig,
          up: bool, rolls: bool)
    requires Print(at) == base && HasLabels(ext.document, at)
    requires CredentialsOf(config).Ok? && ShouldPatch(ext, CredentialsOf(config).value)
    ensures var creds, (next, result) := CredentialsOf(config).value, CreateClient(base, ext, config, up, rolls);
      && HasLabels(next.document, at)
      && next.cache == Some(creds)
      && (result.Ok? <==> SupportedConfig(config) && up && rolls)
      && (Serves(next, at, creds) <==> SupportedConfig(config) && if up then rolls else Serves(ext, at, creds))
      && (if SupportedConfig(config) && up then Deploys(next.document, at, creds) && next.pending == !rolls
          else next.document == ext.document && next.pending == ext.pending)
  {
    SupportedConfigExact(config);
    if SupportedConfig(config) {
      ReplaceCredentialsDeploys(ext.document, base, at, CredentialsOf(config).value, []);
    }
  }

  /** After a patch attempt that failed, for whatever reason, the retry sends nothing and hands
      out a client all the same. That client sees its credentials if and only if the failed
      attempt got no further than the patch request and they had been deployed before. */
  lemma {:induction false} RetryAfterFailure(base: string, at: Tokens, ext: Extension, config: ProxyConfig,
          up: bool, rolls: bool, up': bool, rolls': bool)
    requires Print(at) == base && HasLabels(ext.document, at)
    requires CredentialsOf(config).Ok? && CredentialsOf(config).value != []
    requires ShouldPatch(ext, CredentialsOf(config).value)
    requires !(SupportedConfig(config) && up && rolls)
    ensures var creds, (next, result) := CredentialsOf(config).value, CreateClient(base, ext, config, up, rolls);
      && result.Err?
      && CreateClient(base, next, config, up', rolls') == (next, Ok(false))
      && (Serves(next, at, creds) <==> SupportedConfig(config) && !up && Serves(ext, at, creds))
  {
    AttemptExact(base, at, ext, config, up, rolls);
    RepeatedCallIsQuiet(base, ext, config, up, rolls, up', rolls');
  }

  /** The extension after `remove_all_credentials` went through: the cache stays. */
  function Removed(base: string, ext: Extension): Extension
    requires ApplyAll(ext.document, ResetMembers(base, LABELS)).Some?
  {
    ext.(document := ApplyAll(ext.document, ResetMembers(base, LABELS)).value, pending := true)
  }

  lemma {:induction false} RemovalDeploysNothing(base: string, at: Tokens, ext: Extension)
    requires Print(at) == base && HasLabels(ext.document, at)
    ensures ApplyAll(ext.document, ResetMembers(base, LABELS)).Some?
    ensures HasLabels(Removed(base, ext).document, at) && Deploys(Removed(base, ext).document, at, [])
  {
    var members := Eval(ext.document, at).value.members;
    LabelsArePlain();
    RemoveCredentialsExact(ext.document, base, at, members, LABELS);
    ReplaceCredentialsExact(ext.document, base, at, []);
    ReplaceCredentialsDeploys(ext.document, base, at, [], []);
  }

  lemma {:induction false} KeyCredentialsShow(doc: Value, at: Tokens, config: ProxyConfig)
    requires SupportedConfig(config) && !config.method_.OtherMethod? && CredentialsOf(config).Ok?
    requires Deploys(doc, at, [])
    ensures !Deploys(doc, at, CredentialsOf(config).value)
  {
    var creds := CredentialsOf(config).value;
    SupportedConfigExact(config);
    var kind := creds[0].kind;
    assert kind in LABELS && |Selected(creds, kind)| > 0 && Selected([], kind) == [];
  }

  /** `remove_all_credentials` does not touch the cache. With remote calls that succeed, a client
      handed out afterwards sees its credentials if and only if the cache does not hold them, so
      that they are deployed again; otherwise it finds empty lists. */
  lemma {:induction false} RemovalDefeatsCache(base: string, at: Tokens, ext: Extension, config: ProxyConfig)
    requires Print(at) == base && HasLabels(ext.document, at)
    requires SupportedConfig(config) && !config.method_.OtherMethod?
    ensures ApplyAll(ext.document, ResetMembers(base, LABELS)).Some?
    ensures CredentialsOf(config).Ok?
    ensures var creds := CredentialsOf(config).value;
      var (next, result) := CreateClient(base, Removed(base, ext), config, true, true);
      && result.Ok?
      && (Serves(next, at, creds) <==> ext.cache != Some(creds))
      && (ext.cache == Some(creds) ==> Deploys(next.document, at, []))
  {
    SupportedConfigExact(config);
    RemovalDeploysNothing(base, at, ext);
    var removed, creds := Removed(base, ext), CredentialsOf(config).value;
    assert ShouldPatch(removed, creds) <==> ext.cache != Some(creds);
    if ShouldPatch(removed, creds) {
      AttemptExact(base, at, removed, config, true, true);
    } else {
      KeyCredentialsShow(removed.document, at, config);
    }
  }

  // ----- Runs of the gateway

  /** The last patch of credentials that went through, and whether its rollout did. */
  datatype Patched = Patched(creds: seq<Credential>, rolled: bool)

  /** An extension with its history: whether the last call that assigned the cache was completed,
      the document it began with, and its last patch. */
  datatype Tracked = Tracked(ext: Extension, complete: bool, first: Value, last: Option<Patched>)

  type Gateway = map<string, Tracked>

  datatype Event =
    | ServiceCreated(id: string, document: Value, up: bool)
    | ServiceDeleted(id: string, up: bool)
    | ClientCall(id: string, config: ProxyConfig, up: bool, rolls: bool)

  function Track(t: Tracked, config: ProxyConfig, up: bool, rolls: bool, ext: Extension, result: Result<bool, Raised>)
    : Tracked
  {
    var creds := CredentialsOf(config);
    if creds.Err? || !ShouldPatch(t.ext, creds.value) then t.(ext := ext)
    else
      Tracked(ext, result.Ok?, t.first,
              if SupportedConfig(config) && up then Some(Patched(creds.value, rolls)) else t.last)
  }

  /** An extension is stored once it has created its objects, and its objects are deleted before it
      is dropped. */
  function Step(base: string, g: Gateway, e: Event): (Gateway, Result<bool, Raised>) {
    match e
    case ServiceCreated(id, document, up) =>
      if !up then (g, Err(Unreachable))
      else (g[id := Tracked(Extension(document, None, false), true, document, None)], Ok(true))
    case ServiceDeleted(id, up) =>
      if id !in g then (g, Err(KeyError)) else if !up then (g, Err(Unreachable)) else (g - {id}, Ok(true))
    case ClientCall(id, config, up, rolls) =>
      if id !in g then (g, Err(KeyError))
      else
        var (ext, result) := CreateClient(base, g[id].ext, config, up, rolls);
        (g[id := Track(g[id], config, up, rolls, ext, result)], result)
  }

  function Run(base: string, g: Gateway, events: seq<Event>): Gateway
    decreases |events|
  {
    if events == [] then g else Run(base, Step(base, g, events[0]).0, events[1..])
  }

  /** Every plugin starts from a document that has the three labels. */
  predicate Admissible(at: Tokens, events: seq<Event>) {
    forall k :: 0 <= k < |events| && events[k].ServiceCreated? ==> HasLabels(events[k].document, at)
  }

  /** No remote call of the run fails. */
  predicate Answered(events: seq<Event>) {
    forall k :: 0 <= k < |events| && events[k].ClientCall? ==> events[k].up && events[k].rolls
  }

  predicate CacheHolds(t: Tracked, at: Tokens) {
    && HasLabels(t.ext.document, at)
    && (t.complete && t.ext.cache.Some? && t.ext.cache.value != [] ==> Serves(t.ext, at, t.ext.cache.value))
  }

  /** Without failures, only unsupported credentials leave a call incomplete. */
  predicate OnlyUnsupportedFails(t: Tracked) {
    !t.complete ==> t.ext.cache.Some? && !Supported(t.ext.cache.value)
  }

  /** The credentials of some configuration that can be deployed. */
  ghost predicate Deployable(creds: seq<Credential>) {
    exists config :: SupportedConfig(config) && CredentialsOf(config) == Ok(creds)
  }

  /** The document is what the last patch made of it, or the first one. */
  ghost predicate LastHolds(t: Tracked, at: Tokens) {
    match t.last
    case None => t.ext.document == t.first && !t.ext.pending
    case Some(p) => Deployable(p.creds) && Deploys(t.ext.document, at, p.creds) && t.ext.pending == !p.rolled
  }

  ghost predicate Invariant(g: Gateway, at: Tokens, answered: bool) {
    forall id :: id in g ==> CacheHolds(g[id], at) && LastHolds(g[id], at) && (answered ==> OnlyUnsupportedFails(g[id]))
  }

  lemma {:induction false} CallKeeps(base: string, at: Tokens, t: Tracked, config: ProxyConfig, up: bool,
          rolls: bool, answered: bool)
    requires Print(at) == base && CacheHolds(t, at) && LastHolds(t, at) && (answered ==> OnlyUnsupportedFails(t) && up && rolls)
    ensures var (ext, result) := CreateClient(base, t.ext, config, up, rolls);
      var t' := Track(t, config, up, rolls, ext, result);
      CacheHolds(t', at) && LastHolds(t', at) && (answered ==> OnlyUnsupportedFails(t'))
  {
    if CredentialsOf(config).Ok? && ShouldPatch(t.ext, CredentialsOf(config).value) {
      AttemptExact(base, at, t.ext, config, up, rolls);
      SupportedConfigExact(config);
    }
  }

  lemma {:induction false} StepKeepsInvariant(base: string, at: Tokens, g: Gateway, e: Event, answered: bool)
    requires Print(at) == base && Invariant(g, at, answered)
    requires Admissible(at, [e]) && (answered ==> Answered([e]))
    ensures Invariant(Step(base, g, e).0, at, answered)
  {
    assert e == [e][0];
    if e.ClientCall? && e.id in g {
      CallKeeps(base, at, g[e.id], e.config, e.up, e.rolls, answered);
    }
  }

  lemma {:induction false} RunKeepsInvariant(base: string, at: Tokens, g: Gateway, events: seq<Event>, answered: bool)
    requires Print(at) == base && Invariant(g, at, answered)
    requires Admissible(at, events) && (answered ==> Answered(events))
    ensures Invariant(Run(base, g, events), at, answered)
    decreases |events|
  {
    if events != [] {
      StepKeepsInvariant(base, at, g, events[0], answered);
      RunKeepsInvariant(base, at, Step(base, g, events[0]).0, events[1..], answered);
    }
  }

  /** In every run, with any failures: a client handed out by a call that patched, or by one
      that found the cache current after a completed call, sees the configuration just read. */
  lemma {:induction false} HandedOutAfterCompletion(base: string, at: Tokens, events: seq<Event>, id: string,
          config: ProxyConfig, up: bool, rolls: bool)
    requires Print(at) == base && Admissible(at, events)
    ensures var g := Run(base, map[], events);
      var (next, result) := Step(base, g, ClientCall(id, config, up, rolls));
      result.Ok? && (result.value || g[id].complete) ==> Serves(next[id].ext, at, CredentialsOf(config).value)
  {
    var g := Run(base, map[], events);
    RunKeepsInvariant(base, at, map[], events, false);
    if id in g && CredentialsOf(config).Ok? && ShouldPatch(g[id].ext, CredentialsOf(config).value) {
      AttemptExact(base, at, g[id].ext, config, up, rolls);
    }
  }

  /** In every run without remote failures a handed-out client sees the translation of the
      configuration just read, rolled out, if and only if that configuration is supported. */
  lemma {:induction false} HandedOutExact(base: string, at: Tokens, events: seq<Event>, id: string, config: ProxyConfig)
    requires Print(at) == base && Admissible(at, events) && Answered(events)
    ensures var g := Run(base, map[], events);
      var (next, result) := Step(base, g, ClientCall(id, config, true, true));
      && (result.Ok? ==>
           CredentialsOf(config).Ok? && (Serves(next[id].ext, at, CredentialsOf(config).value) <==> SupportedConfig(config)))
      && (id in g && SupportedConfig(config) ==> result.Ok?)
  {
    var g := Run(base, map[], events);
    RunKeepsInvariant(base, at, map[], events, true);
    SupportedConfigExact(config);
    if id in g && CredentialsOf(config).Ok? && ShouldPatch(g[id].ext, CredentialsOf(config).value) {
      AttemptExact(base, at, g[id].ext, config, true, true);
    }
  }

  /** The lists the two credentials become tell them apart. */
  lemma {:induction false} TranslateInjective(a: Credential, b: Credential)
    requires a.kind == b.kind && a.key.Some? && b.key.Some?
    requires a.location == "query_string" || a.location == "header"
    requires b.location == "query_string" || b.location == "header"
    requires Translate(a) == Translate(b)
    ensures a == b
  {
    var x, y := Translate(a).value.members, Translate(b).value.members;
    assert a.location in x && x == y;
    assert x[a.location].members["keys"] == Arr([Str(a.key.value)]);
    assert y[b.location].members["keys"] == Arr([Str(b.key.value)]);
  }

  lemma {:induction false} SelectedOne(cred: Credential, kind: string)
    requires Translate(cred).Ok?
    ensures Selected([cred], kind) == if cred.kind == kind then [Translate(cred).value] else []
  {
    assert [cred][1..] == [];
  }

  lemma {:induction false} SelectedTwo(first: Credential, second: Credential, kind: string)
    requires Translate(first).Ok? && Translate(second).Ok?
    ensures Selected([first, second], kind) ==
      (if first.kind == kind then [Translate(first).value] else []) +
      (if second.kind == kind then [Translate(second).value] else [])
  {
    assert [first, second][1..] == [second];
    SelectedOne(second, kind);
  }

  /** What each kind of configuration deploys under one label. */
  lemma {:induction false} SelectedOf(config: ProxyConfig, kind: string)
    requires SupportedConfig(config) && CredentialsOf(config).Ok? && Supported(CredentialsOf(config).value)
    ensures var creds := CredentialsOf(config).value;
      Selected(creds, kind) ==
      match config.method_
      case UserKey => (if kind == "user_key" then [Translate(creds[0]).value] else [])
      case AppIdKey =>
        (if kind == "app_id" then [Translate(creds[0]).value] else if kind == "app_key" then [Translate(creds[1]).value] else [])
      case Oidc => (if kind == "app_id" then [Translate(creds[0]).value] else [])
      case OtherMethod => []
  {
    var creds := CredentialsOf(config).value;
    match config.method_
    case UserKey => SelectedOne(creds[0], kind);
    case AppIdKey => SelectedTwo(creds[0], creds[1], kind);
    case Oidc => SelectedOne(creds[0], kind);
    case OtherMethod =>
  }

  /** Which lists are filled tells the method, and "oidc" has a filter where keys have their location. */
  lemma {:induction false} MethodsShow(a: ProxyConfig, b: ProxyConfig)
    requires SupportedConfig(a) && CredentialsOf(a).Ok? && Supported(CredentialsOf(a).value)
    requires SupportedConfig(b) && CredentialsOf(b).Ok? && Supported(CredentialsOf(b).value)
    requires forall kind :: kind in LABELS ==> Selected(CredentialsOf(a).value, kind) == Selected(CredentialsOf(b).value, kind)
    ensures a.method_ == b.method_
  {
    var user, id, key := "user_key", "app_id", "app_key";
    assert user in LABELS && id in LABELS && key in LABELS;
    SelectedOf(a, user);
    SelectedOf(b, user);
    SelectedOf(a, id);
    SelectedOf(b, id);
    SelectedOf(a, key);
    SelectedOf(b, key);
  }

  /** The one credential of this label is the same on both sides. */
  lemma {:induction false} SameUnder(a: ProxyConfig, b: ProxyConfig, kind: string, i: nat)
    requires SupportedConfig(a) && CredentialsOf(a).Ok? && Supported(CredentialsOf(a).value)
    requires SupportedConfig(b) && CredentialsOf(b).Ok? && Supported(CredentialsOf(b).value)
    requires a.method_ == b.method_
    requires (a.method_.UserKey? && kind == "user_key" && i == 0) ||
             (a.method_.AppIdKey? && ((kind == "app_id" && i == 0) || (kind == "app_key" && i == 1)))
    requires Selected(CredentialsOf(a).value, kind) == Selected(CredentialsOf(b).value, kind)
    ensures CredentialsOf(a).value[i] == CredentialsOf(b).value[i]
  {
    SelectedOf(a, kind);
    SelectedOf(b, kind);
    TranslateInjective(CredentialsOf(a).value[i], CredentialsOf(b).value[i]);
  }

  lemma {:induction false} SameLists(a: ProxyConfig, b: ProxyConfig)
    requires SupportedConfig(a) && CredentialsOf(a).Ok? && Supported(CredentialsOf(a).value)
    requires SupportedConfig(b) && CredentialsOf(b).Ok? && Supported(CredentialsOf(b).value)
    requires forall kind :: kind in LABELS ==> Selected(CredentialsOf(a).value, kind) == Selected(CredentialsOf(b).value, kind)
    ensures CredentialsOf(a) == CredentialsOf(b)
  {
    MethodsShow(a, b);
    var user, id, key := "user_key", "app_id", "app_key";
    assert user in LABELS && id in LABELS && key in LABELS;
    match a.method_
    case UserKey => SameUnder(a, b, user, 0);
    case AppIdKey =>
      SameUnder(a, b, id, 0);
      SameUnder(a, b, key, 1);
    case _ =>
  }

  /** By its history the extension was last patched and rolled out with exactly these
      credentials, or never patched and begun with them. */
  predicate LastIs(t: Tracked, at: Tokens, creds: seq<Credential>) {
    match t.last
    case Some(p) => p.rolled && p.creds == creds
    case None => Deploys(t.first, at, creds)
  }

  /** In every run, with any failures: whatever client is handed out sees the configuration just
      read if and only if the last patch that went through deployed exactly its credentials and
      was rolled out, or there was none and the first document deploys them. */
  lemma {:induction false} HandedOutAlways(base: string, at: Tokens, events: seq<Event>, id: string,
          config: ProxyConfig,
          up: bool, rolls: bool)
    requires Print(at) == base && Admissible(at, events)
    ensures var (next, result) := Step(base, Run(base, map[], events), ClientCall(id, config, up, rolls));
      result.Ok? ==>
        && CredentialsOf(config).Ok?
        && (Serves(next[id].ext, at, CredentialsOf(config).value) <==>
            LastIs(next[id], at, CredentialsOf(config).value))
  {
    var g, call := Run(base, map[], events), ClientCall(id, config, up, rolls);
    RunKeepsInvariant(base, at, map[], events, false);
    StepKeepsInvariant(base, at, g, call, false);
    var (next, result) := Step(base, g, call);
    if result.Ok? && next[id].last.Some? {
      LastDecides(next[id], at, config);
    }
  }

  lemma {:induction false} LastDecides(t: Tracked, at: Tokens, config: ProxyConfig)
    requires LastHolds(t, at) && t.last.Some? && CredentialsOf(config).Ok?
    ensures Serves(t.ext, at, CredentialsOf(config).value) <==>
            t.last.value.rolled && t.last.value.creds == CredentialsOf(config).value
  {
    var p, creds := t.last.value, CredentialsOf(config).value;
    SupportedConfigExact(config);
    if Deploys(t.ext.document, at, creds) {
      var other :| SupportedConfig(other) && CredentialsOf(other) == Ok(p.creds);
      SupportedConfigExact(other);
      forall kind | kind in LABELS ensures Selected(p.creds, kind) == Selected(creds, kind) {
        assert Eval(t.ext.document, at + [kind]) == Some(Arr(Selected(creds, kind)));
      }
      SameLists(other, config);
    }
  }

  /** With the "authorization" location every second call hands out a client over a document left
      as it was. */
  lemma {:induction false} RetryAfterRaise(base: string, at: Tokens, ext: Extension, config: ProxyConfig,
          up: bool, rolls: bool)
    requires Print(at) == base && HasLabels(ext.document, at)
    requires config.location == "authorization" && (config.method_.UserKey? || config.method_.AppIdKey?)
    requires ext.cache != Some(CredentialsOf(config).value)
    ensures var (next, result) := CreateClient(base, ext, config, up, rolls);
      && result == Err(NotImplemented)
      && next.document == ext.document
      && CreateClient(base, next, config, up, rolls) == (next, Ok(false))
      && !Serves(next, at, CredentialsOf(config).value)
  {
    AttemptExact(base, at, ext, config, up, rolls);
    assert Translate(CredentialsOf(config).value[0]) == Err(NotImplemented);
    RetryAfterFailure(base, at, ext, config, up, rolls, up, rolls);
  }

  // ----- The document a plugin starts from

  /** The members on the way to a plugin's first service; there may be others at every level. */
  predicate HoldsService(doc: Value, entry: Value) {
    && doc.Obj? && "spec" in doc.members
    && var spec := doc.members["spec"];
    && spec.Obj? && "pluginConfig" in spec.members
    && var config := spec.members["pluginConfig"];
    && config.Obj? && "services" in config.members
    && var services := config.members["services"];
    && services.Arr? && |services.items| > 0 && services.items[0] == entry
  }

  lemma {:induction false} ServiceEval(doc: Value, entry: Value, service: Tokens)
    requires HoldsService(doc, entry) && service == ["spec", "pluginConfig", "services", "0"]
    ensures Eval(doc, service) == Some(entry)
  {
    var spec := doc.members["spec"];
    var config := spec.members["pluginConfig"];
    var services := config.members["services"];
    assert "0"[..0] == [] && ArrayIndex("0") == Some(0);
    assert Eval(services, ["0"]) == Some(entry) by { assert ["0"][1..] == []; }
    assert service[1..] == ["pluginConfig", "services", "0"] && service[1..][1..] == ["services", "0"];
    assert service[1..][1..][1..] == ["0"];
    assert Eval(config, ["services", "0"]) == Eval(services, ["0"]) by { assert ["services", "0"][1..] == ["0"]; }
    assert Eval(spec, ["pluginConfig", "services", "0"]) == Eval(config, ["services", "0"]) by {
      assert ["pluginConfig", "services", "0"][1..] == ["services", "0"];
    }
    assert Eval(doc, service) == Eval(spec, service[1..]);
  }

  /** The service entry of `testsuite/resources/service_mesh/plugin.yaml`. */
  function TemplateEntry(id: Value, authorities: Value, userKey: Value, appId: Value, appKey: Value): Value {
    Obj(map["id" := id, "authorities" := authorities,
            "credentials" := Obj(map["user_key" := userKey, "app_id" := appId, "app_key" := appKey])])
  }

  /** In whatever document holds it: a fresh plugin has the three labels but no "mapping_rules"
      member, so the reset of `remove_all_mapping_rules` is refused until something else adds one. */
  lemma {:induction false} TemplateFacts(doc: Value, service: Tokens, id: Value, authorities: Value, userKey: Value,
          appId: Value, appKey: Value)
    requires HoldsService(doc, TemplateEntry(id, authorities, userKey, appId, appKey))
    requires service == ["spec", "pluginConfig", "services", "0"]
    ensures HasLabels(doc, service + ["credentials"])
    ensures Eval(doc, service + ["authorities"]) == Some(authorities)
    ensures Eval(doc, service + ["mapping_rules"]) == None
  {
    var entry := TemplateEntry(id, authorities, userKey, appId, appKey);
    ServiceEval(doc, entry, service);
    EvalConcat(doc, service, ["credentials"]);
    EvalConcat(doc, service, ["authorities"]);
    EvalConcat(doc, service, ["mapping_rules"]);
    MemberEval(entry, "credentials");
    MemberEval(entry, "authorities");
    MemberEval(entry, "mapping_rules");
  }

  lemma {:induction false} MemberEval(doc: Value, name: string)
    requires doc.Obj?
    ensures Eval(doc, [name]) == if name in doc.members then Some(doc.members[name]) else None
  {
    assert [name][1..] == [];
  }
}
