/** What a client of the WASM gateway finds deployed, list entry by list entry, and which services
    have an extension at all: the runs of WasmRuns read in the plugin's and the events' own terms. */
module WasmClients {
  import opened Wrappers
  import opened Json
  import opened JsonPointer
  import opened JsonPatch
  import opened WasmScripts
  import opened WasmRuns

  /** The lists of the three labels. */
  predicate Lists(doc: Value, at: Tokens, userKeys: seq<Value>, appIds: seq<Value>, appKeys: seq<Value>) {
    && Eval(doc, at + ["user_key"]) == Some(Arr(userKeys))
    && Eval(doc, at + ["app_id"]) == Some(Arr(appIds))
    && Eval(doc, at + ["app_key"]) == Some(Arr(appKeys))
  }

  /** The plugin looks for the credentials of this configuration, and for no others: "query" keys
      in the query string, "headers" keys in the headers, and with OIDC the client id in the two
      claims of the verified token. */
  predicate Shows(doc: Value, at: Tokens, config: ProxyConfig) {
    match config.method_
    case UserKey =>
      || (config.location == "query" &&
          Lists(doc, at, [Obj(map["query_string" := Obj(map["keys" := Arr([Str(config.userKey)])])])], [], []))
      || (config.location == "headers" &&
          Lists(doc, at, [Obj(map["header" := Obj(map["keys" := Arr([Str(config.userKey)])])])], [], []))
    case AppIdKey =>
      || (config.location == "query" &&
          Lists(doc, at, [], [Obj(map["query_string" := Obj(map["keys" := Arr([Str(config.appId)])])])],
                [Obj(map["query_string" := Obj(map["keys" := Arr([Str(config.appKey)])])])]))
      || (config.location == "headers" &&
          Lists(doc, at, [], [Obj(map["header" := Obj(map["keys" := Arr([Str(config.appId)])])])],
                [Obj(map["header" := Obj(map["keys" := Arr([Str(config.appKey)])])])]))
    case Oidc =>
      Lists(doc, at, [],
            [Obj(map["filter" := Obj(map[
              "path" := Arr([Str("envoy.filters.http.jwt_authn"), Str("0")]),
              "keys" := Arr([Str("azp"), Str("aud")]),
              "ops" := Arr([Obj(map["take" := Obj(map["head" := Num(1)])])])])])], [])
    case OtherMethod => Lists(doc, at, [], [], [])
  }

  /** The three places a configuration may name; any other raises KeyError. */
  lemma {:induction false} LocationExact(config: ProxyConfig)
    ensures CredentialsOf(config).Ok? <==>
            config.location == "query" || config.location == "headers" || config.location == "authorization"
    ensures CredentialsOf(config).Err? ==> CredentialsOf(config) == Err(KeyError)
  {
  }

  lemma {:induction false} DeploysLists(doc: Value, at: Tokens, creds: seq<Credential>)
    requires Supported(creds)
    ensures Deploys(doc, at, creds) <==>
            Lists(doc, at, Selected(creds, "user_key"), Selected(creds, "app_id"), Selected(creds, "app_key"))
  {
    assert "user_key" in LABELS && "app_id" in LABELS && "app_key" in LABELS;
  }

  lemma {:induction false} UserKeyShows(doc: Value, at: Tokens, config: ProxyConfig)
    requires SupportedConfig(config) && config.method_.UserKey?
    ensures Deploys(doc, at, CredentialsOf(config).value) <==> Shows(doc, at, config)
  {
    var creds := CredentialsOf(config).value;
    SupportedConfigExact(config);
    DeploysLists(doc, at, creds);
    SelectedOf(config, "user_key");
    SelectedOf(config, "app_id");
    SelectedOf(config, "app_key");
  }

  lemma {:induction false} AppIdShows(doc: Value, at: Tokens, config: ProxyConfig)
    requires SupportedConfig(config) && config.method_.AppIdKey?
    ensures Deploys(doc, at, CredentialsOf(config).value) <==> Shows(doc, at, config)
  {
    var creds := CredentialsOf(config).value;
    SupportedConfigExact(config);
    DeploysLists(doc, at, creds);
    SelectedOf(config, "user_key");
    SelectedOf(config, "app_id");
    SelectedOf(config, "app_key");
  }

  lemma {:induction false} KeylessShows(doc: Value, at: Tokens, config: ProxyConfig)
    requires SupportedConfig(config) && (config.method_.Oidc? || config.method_.OtherMethod?)
    ensures Deploys(doc, at, CredentialsOf(config).value) <==> Shows(doc, at, config)
  {
    var creds := CredentialsOf(config).value;
    SupportedConfigExact(config);
    DeploysLists(doc, at, creds);
    SelectedOf(config, "user_key");
    SelectedOf(config, "app_id");
    SelectedOf(config, "app_key");
  }

  /** Deploying the credentials a configuration is translated to is showing that configuration. */
  lemma {:induction false} DeploysShows(doc: Value, at: Tokens, config: ProxyConfig)
    requires CredentialsOf(config).Ok?
    ensures Deploys(doc, at, CredentialsOf(config).value) <==> Shows(doc, at, config)
  {
    SupportedConfigExact(config);
    if SupportedConfig(config) {
      match config.method_
      case UserKey => UserKeyShows(doc, at, config);
      case AppIdKey => AppIdShows(doc, at, config);
      case _ => KeylessShows(doc, at, config);
    }
  }

  /** After a call that patched and rolled out, the plugin shows the configuration just read. */
  lemma {:induction false} PatchedShows(base: string, at: Tokens, ext: Extension, config: ProxyConfig, up: bool, rolls: bool)
    requires Print(at) == base && HasLabels(ext.document, at)
    ensures var (next, result) := CreateClient(base, ext, config, up, rolls);
      result == Ok(true) ==> Shows(next.document, at, config) && !next.pending
  {
    if CredentialsOf(config).Ok? && ShouldPatch(ext, CredentialsOf(config).value) {
      AttemptExact(base, at, ext, config, up, rolls);
      DeploysShows(CreateClient(base, ext, config, up, rolls).0.document, at, config);
    }
  }

  /** In every run without remote failures: a client is handed out for every service there is and
      every configuration that names "query" or "headers", and its keys are looked for there. */
  lemma {:induction false} HandedOutShows(base: string, at: Tokens, events: seq<Event>, id: string, config: ProxyConfig)
    requires Print(at) == base && Admissible(at, events) && Answered(events)
    requires config.location == "query" || config.location == "headers"
    ensures var g := Run(base, map[], events);
      var (next, result) := Step(base, g, ClientCall(id, config, true, true));
      && (result.Ok? <==> id in g)
      && (id in g ==> Shows(next[id].ext.document, at, config) && !next[id].ext.pending)
  {
    HandedOutExact(base, at, events, id, config);
    var g := Run(base, map[], events);
    if id in g {
      DeploysShows(Step(base, g, ClientCall(id, config, true, true)).0[id].ext.document, at, config);
    }
  }

  /** What a failing call reports: a location nobody knows, basic authorization for a key, and
      otherwise the remote side. */
  lemma {:induction false} AttemptErrors(base: string, at: Tokens, ext: Extension, config: ProxyConfig, up: bool, rolls: bool)
    requires Print(at) == base && HasLabels(ext.document, at)
    ensures var result := CreateClient(base, ext, config, up, rolls).1;
      && (result == Err(KeyError) <==> config.location !in {"query", "headers", "authorization"})
      && (result == Err(NotImplemented) ==>
            config.location == "authorization" && (config.method_.UserKey? || config.method_.AppIdKey?))
      && (result == Err(Unreachable) ==> !up || !rolls)
      && result != Err(Rejected)
  {
    if CredentialsOf(config).Ok? && ShouldPatch(ext, CredentialsOf(config).value) {
      AttemptExact(base, at, ext, config, up, rolls);
      SupportedConfigExact(config);
      if !SupportedConfig(config) {
        assert Translate(CredentialsOf(config).value[0]) == Err(NotImplemented);
      } else if up {
        ReplaceCredentialsDeploys(ext.document, base, at, CredentialsOf(config).value, []);
      }
    }
  }

  /** The cache keeps a second call from patching only when it holds some credentials: without any,
      which is what a method that is none of the three is translated to, every call patches. */
  lemma {:induction false} EmptyIsPatchedAgain(base: string, at: Tokens, ext: Extension, config: ProxyConfig)
    requires Print(at) == base && HasLabels(ext.document, at)
    requires SupportedConfig(config) && config.method_.OtherMethod?
    ensures var (next, result) := CreateClient(base, ext, config, true, true);
      result == Ok(true) && CreateClient(base, next, config, true, true).1 == Ok(true)
  {
    AttemptExact(base, at, ext, config, true, true);
    AttemptExact(base, at, CreateClient(base, ext, config, true, true).0, config, true, true);
  }

  // ----- Mapping rules and authorities

  /** A rule's entry holds its four members, and what it counts in a list of one usage. */
  predicate RuleEntry(entry: Value, rule: MappingRule) {
    && entry.Obj? && entry.members.Keys == {"method", "pattern", "usages", "last"}
    && entry.members["method"] == Str(rule.httpMethod)
    && entry.members["pattern"] == Str(rule.pattern)
    && entry.members["usages"] == Arr([Obj(map["name" := Str(rule.metric), "delta" := Num(rule.delta)])])
    && entry.members["last"] == Bool(rule.last)
  }

  /** Replacing the rules leaves one entry for each rule, in order, that tells all of it. */
  lemma {:induction false} RulesShow(doc: Value, base: string, at: Tokens, field: string, rules: seq<MappingRule>)
    requires Print(at) == base && Plain(field) && Eval(doc, at + [field]).Some?
    ensures var patched := ApplyAll(doc, ReplaceList(base + "/" + field, RuleValues(rules), true));
      && patched.Some?
      && exists entries ::
           && Eval(patched.value, at + [field]) == Some(Arr(entries)) && |entries| == |rules|
           && forall k :: 0 <= k < |rules| ==> RuleEntry(entries[k], rules[k])
  {
    var entries := RuleValues(rules);
    ReplaceListExact(doc, base, at, field, entries);
    PutThenRead(doc, at + [field], Arr(entries), Null);
    forall k | 0 <= k < |rules| ensures RuleEntry(entries[k], rules[k]) {
    }
  }

  /** Two rules with the same entry are the same rule. */
  lemma {:induction false} RuleEntryTells(entry: Value, a: MappingRule, b: MappingRule)
    requires RuleEntry(entry, a) && RuleEntry(entry, b)
    ensures a == b
  {
    var x := Obj(map["name" := Str(a.metric), "delta" := Num(a.delta)]);
    var y := Obj(map["name" := Str(b.metric), "delta" := Num(b.delta)]);
    assert [x][0] == [y][0] && x.members["name"] == y.members["name"] && x.members["delta"] == y.members["delta"];
  }

  /** Replacing the authorities leaves exactly the given texts, in order. */
  lemma {:induction false} AuthoritiesShow(doc: Value, base: string, at: Tokens, field: string, authorities: seq<string>)
    requires Print(at) == base && Plain(field) && Eval(doc, at + [field]).Some?
    ensures var patched := ApplyAll(doc, ReplaceList(base + "/" + field, Texts(authorities), true));
      && patched.Some?
      && exists entries ::
           && Eval(patched.value, at + [field]) == Some(Arr(entries)) && |entries| == |authorities|
           && forall k :: 0 <= k < |authorities| ==> entries[k] == Str(authorities[k])
  {
    ReplaceListExact(doc, base, at, field, Texts(authorities));
    PutThenRead(doc, at + [field], Arr(Texts(authorities)), Null);
  }

  // ----- Services that come and go

  /** An event touches no other service. Creating stores an extension unless its objects cannot be
      created; deleting drops it unless there is none or its objects cannot be deleted; and there is
      a client only for a service that has one. */
  lemma {:induction false} EventExact(base: string, g: Gateway, e: Event)
    ensures var (next, result) := Step(base, g, e);
      && next - {e.id} == g - {e.id}
      && (e.ServiceCreated? ==>
            (result == Ok(true) <==> e.up) && (result == Err(Unreachable) <==> !e.up) && (e.id in next <==> e.up || e.id in g))
      && (e.ServiceDeleted? ==>
            (result == Ok(true) <==> e.id in g && e.up) && (result == Err(KeyError) <==> e.id !in g) &&
            (result == Err(Unreachable) <==> e.id in g && !e.up) && (e.id in next <==> e.id in g && !e.up))
      && (e.ClientCall? ==> (e.id in next <==> e.id in g) && (e.id !in g ==> result == Err(KeyError)))
      && (result.Err? && !e.ClientCall? ==> next == g)
  {
  }

  // ----- Which services have an extension

  /** The event stores the extension of this service, or drops it. */
  predicate Touches(e: Event, id: string) {
    (e.ServiceCreated? && e.id == id && e.up) || (e.ServiceDeleted? && e.id == id && e.up)
  }

  /** Event k is the creation that is still in force. */
  ghost predicate InForce(events: seq<Event>, id: string, k: nat) {
    && k < |events| && Touches(events[k], id) && events[k].ServiceCreated?
    && forall j :: k < j < |events| ==> !Touches(events[j], id)
  }

  lemma {:induction false} RunLast(base: string, g: Gateway, events: seq<Event>)
    requires events != []
    ensures Run(base, g, events) == Step(base, Run(base, g, events[..|events| - 1]), events[|events| - 1]).0
    decreases |events|
  {
    var n := |events| - 1;
    if n > 0 {
      RunLast(base, Step(base, g, events[0]).0, events[1..]);
      assert events[1..][..n - 1] == events[..n][1..];
    } else {
      assert events[1..] == [] && events[..0] == [];
    }
  }

  lemma {:induction false} InForceLast(events: seq<Event>, id: string, k: nat)
    requires events != []
    ensures var n := |events| - 1;
      InForce(events, id, k) <==>
      if Touches(events[n], id) then k == n && events[n].ServiceCreated? else InForce(events[..n], id, k)
  {
    var n := |events| - 1;
    if InForce(events, id, k) && k < n {
      assert !Touches(events[n], id);
    }
  }

  /** Over every run, whatever fails: a service has an extension if and only if it was created and
      not deleted since, by calls that went through, and the extension began with the document of
      that creation. */
  lemma {:induction false} StoredExact(base: string, events: seq<Event>, id: string)
    ensures var g := Run(base, map[], events);
      && (id in g <==> exists k: nat :: InForce(events, id, k))
      && (forall k: nat :: InForce(events, id, k) ==> id in g && g[id].first == events[k].document)
    decreases |events|
  {
    if events != [] {
      var n := |events| - 1;
      var before := Run(base, map[], events[..n]);
      RunLast(base, map[], events);
      StoredExact(base, events[..n], id);
      forall k: nat
        ensures InForce(events, id, k) <==>
          if Touches(events[n], id) then k == n && events[n].ServiceCreated? else InForce(events[..n], id, k)
      {
        InForceLast(events, id, k);
      }
      if Touches(events[n], id) {
        assert events[n].ServiceCreated? ==> InForce(events, id, n);
      } else {
        assert id in before <==> id in Run(base, map[], events);
        assert forall k: nat :: InForce(events, id, k) <==> InForce(events[..n], id, k);
      }
    }
  }
}
