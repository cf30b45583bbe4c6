/** The extension and gateway objects of `testsuite/gateways/wasm`, with the remote plugin
    resource as an object of its own. `up` and `rolls` are the remote side's answers. */
module WasmGateway {
  import opened Wrappers
  import opened Json
  import opened JsonPointer
  import opened JsonPatch
  import opened PatchScripts
  import opened WasmScripts
  import opened WasmRuns

  const SERVICE_PATH := "/spec" + "/pluginConfig" + "/services" + "/0"
  const CREDENTIALS_PATH := SERVICE_PATH + "/credentials"
  const RULES_PATH := SERVICE_PATH + "/mapping_rules"
  const AUTHORITIES_PATH := SERVICE_PATH + "/authorities"

  /** The paths of the scripts print the intended tokens. */
  lemma {:induction false} PathTexts(service: Tokens)
    requires service == ["spec", "pluginConfig", "services", "0"]
    ensures Print(service) == SERVICE_PATH
    ensures Print(service + ["credentials"]) == CREDENTIALS_PATH
    ensures Print(service + ["mapping_rules"]) == RULES_PATH
    ensures Print(service + ["authorities"]) == AUTHORITIES_PATH
  {
    ServiceText(service, service[0], service[1], service[2], service[3]);
    CredentialsText(service, "credentials");
    RulesText(service, "mapping_rules");
    AuthoritiesText(service, "authorities");
  }

  lemma {:induction false} CredentialsText(service: Tokens, last: string)
    requires last == "credentials" && Print(service) == SERVICE_PATH
    ensures Print(service + [last]) == CREDENTIALS_PATH
  {
    MemberPath(SERVICE_PATH, service, last);
  }

  lemma {:induction false} RulesText(service: Tokens, last: string)
    requires last == "mapping_rules" && Print(service) == SERVICE_PATH
    ensures Print(service + [last]) == RULES_PATH
  {
    MemberPath(SERVICE_PATH, service, last);
  }

  lemma {:induction false} AuthoritiesText(service: Tokens, last: string)
    requires last == "authorities" && Print(service) == SERVICE_PATH
    ensures Print(service + [last]) == AUTHORITIES_PATH
  {
    MemberPath(SERVICE_PATH, service, last);
  }

  lemma {:induction false} ServiceText(service: Tokens, a: string, b: string, c: string, d: string)
    requires a == "spec" && b == "pluginConfig" && c == "services" && d == "0"
    requires service == [a, b, c, d]
    ensures Print(service) == SERVICE_PATH
  {
    ServiceLetters(a, b, c, d);
    FourTokens(a, b, c, d);
  }

  lemma {:induction false} ServiceLetters(a: string, b: string, c: string, d: string)
    requires a == "spec" && b == "pluginConfig" && c == "services" && d == "0"
    ensures "/" + a + ("/" + b) + ("/" + c) + ("/" + d) == SERVICE_PATH
    ensures Plain(a) && Plain(b) && Plain(c) && Plain(d)
  {
  }

  lemma {:induction false} FourTokens(a: string, b: string, c: string, d: string)
    requires Plain(a) && Plain(b) && Plain(c) && Plain(d)
    ensures Print([a, b, c, d]) == "/" + a + ("/" + b) + ("/" + c) + ("/" + d)
  {
    PrintPlain(a);
    PrintPlain(b);
    PrintPlain(c);
    PrintPlain(d);
    PrintConcat([a], [b, c, d]);
    PrintConcat([b], [c, d]);
    PrintConcat([c], [d]);
    assert [a] + [b, c, d] == [a, b, c, d] && [b] + [c, d] == [b, c, d] && [c] + [d] == [c, d];
  }

  lemma {:induction false} FirstErrorAt(creds: seq<Credential>, k: nat)
    requires k < |creds| && Supported(creds[..k]) && Translate(creds[k]).Err?
    ensures !Supported(creds) && FirstError(creds) == Translate(creds[k]).error
  {
    if k > 0 {
      assert Translate(creds[..k][0]).Ok?;
      assert creds[1..][..k - 1] == creds[..k][1..];
      FirstErrorAt(creds[1..], k - 1);
    }
  }

  /** The deployed `wasmplugin` resource together with its workload. */
  class WasmPlugin {
    var document: Value
    var pending: bool

    constructor (document: Value)
      ensures this.document == document && !pending
    {
      this.document := document;
      pending := false;
    }

    /** `oc patch --type json`: all operations or none. */
    method Patch(ops: seq<Operation>, up: bool) returns (r: Result<bool, Raised>)
      modifies this
      ensures r.Ok? <==> up && ApplyAll(old(document), ops).Some?
      ensures r == if !up then Err(Unreachable) else if ApplyAll(old(document), ops).None? then Err(Rejected) else Ok(true)
      ensures if r.Ok? then document == ApplyAll(old(document), ops).value && pending
              else document == old(document) && pending == old(pending)
    {
      if !up { return Err(Unreachable); }
      var patched := ApplyAll(document, ops);
      if patched.None? { return Err(Rejected); }
      document, pending := patched.value, true;
      return Ok(true);
    }

    method Rollout(rolls: bool) returns (r: Result<bool, Raised>)
      modifies this
      ensures r == if rolls then Ok(true) else Err(Unreachable)
      ensures document == old(document) && pending == (old(pending) && !rolls)
    {
      if !rolls { return Err(Unreachable); }
      pending := false;
      return Ok(true);
    }
  }

  /** The two scripts of a list field, one after the other. */
  lemma {:induction false} ResetThenAppend(doc: Value, base: string, at: Tokens, field: string, path: string,
          values: seq<Value>)
    requires Print(at) == base && Plain(field) && path == base + "/" + field
    ensures var reset := ApplyAll(doc, Reset(path));
      && reset == (if Eval(doc, at + [field]).None? then None else Some(Put(doc, at + [field], Arr([]))))
      && (reset.Some? ==>
            ApplyAll(reset.value, Append(path, values)) == Some(Put(doc, at + [field], Arr(values))))
  {
    var place := at + [field];
    MemberPath(base, at, field);
    ResetEffect(doc, at, field, path);
    if Eval(doc, place).Some? {
      PutThenRead(doc, place, Arr([]), Arr(values));
      AppendEffect(Put(doc, place, Arr([])), place, path, [], values);
      assert [] + values == values;
    }
  }

  class WasmExtension {
    const httpbin: WasmPlugin
    const credentialsPath: string
    const rulesPath: string
    const authoritiesPath: string
    var credentials: Option<seq<Credential>>

    function State(): Extension
      reads this, httpbin
    {
      Extension(httpbin.document, credentials, httpbin.pending)
    }

    constructor (document: Value)
      ensures fresh(httpbin) && credentialsPath == CREDENTIALS_PATH
      ensures rulesPath == RULES_PATH && authoritiesPath == AUTHORITIES_PATH
      ensures State() == Extension(document, None, false)
    {
      httpbin := new WasmPlugin(document);
      credentialsPath := CREDENTIALS_PATH;
      rulesPath, authoritiesPath := RULES_PATH, AUTHORITIES_PATH;
      credentials := None;
    }

    method AddMappingRules(rules: seq<MappingRule>, up: bool) returns (r: Result<bool, Raised>)
      modifies httpbin
      ensures var patched := ApplyAll(old(httpbin.document), Append(rulesPath, RuleValues(rules)));
        if up && patched.Some? then r.Ok? && httpbin.document == patched.value
        else r.Err? && httpbin.document == old(httpbin.document)
    {
      var ops := [];
      for k := 0 to |rules|
        invariant ops == Append(rulesPath, RuleValues(rules[..k]))
        invariant httpbin.document == old(httpbin.document)
      {
        ops := ops + [Add(rulesPath + "/-", RuleValue(rules[k]))];
      }
      assert rules[..|rules|] == rules;
      r := httpbin.Patch(ops, up);
    }

    method RemoveAllMappingRules(up: bool) returns (r: Result<bool, Raised>)
      modifies httpbin
      ensures var patched := ApplyAll(old(httpbin.document), Reset(rulesPath));
        if up && patched.Some? then r.Ok? && httpbin.document == patched.value
        else r.Err? && httpbin.document == old(httpbin.document)
    {
      r := httpbin.Patch([Remove(rulesPath), Add(rulesPath, Arr([]))], up);
    }

    /** The rules are removed, the configuration is read (`read`) and its rules are added: when
        all goes through the rules are exactly those of the configuration, and when a later step
        fails the plugin is left with none. The place of the rules is a parameter so that the
        effect can be named by tokens. */
    method SynchroniseMappingRules(rules: seq<MappingRule>, up: bool, read: bool, upAgain: bool,
            ghost base: string, ghost at: Tokens, ghost field: string)
      returns (r: Result<bool, Raised>)
      requires Print(at) == base && Plain(field) && rulesPath == base + "/" + field
      modifies httpbin
      ensures r.Ok? <==> up && read && upAgain && Eval(old(httpbin.document), at + [field]).Some?
      ensures httpbin.document ==
        if !up || Eval(old(httpbin.document), at + [field]).None? then old(httpbin.document)
        else Put(old(httpbin.document), at + [field], Arr(if r.Ok? then RuleValues(rules) else []))
    {
      ResetThenAppend(httpbin.document, base, at, field, rulesPath, RuleValues(rules));
      r := RemoveAllMappingRules(up);
      if r.Err? { return; }
      if !read { return Err(Unreachable); }
      r := AddMappingRules(rules, upAgain);
    }

    method ReplaceCredentials(creds: seq<Credential>, up: bool) returns (r: Result<bool, Raised>)
      modifies httpbin
      ensures (State(), r) == Replace(credentialsPath, old(State()), creds, up)
    {
      var ops := [];
      for i := 0 to |LABELS|
        invariant ops == ResetMembers(credentialsPath, LABELS[..i])
        invariant State() == old(State())
      {
        var path := credentialsPath + "/" + LABELS[i];
        ops := ops + [Remove(path), Add(path, Arr([]))];
        assert LABELS[..i + 1][..i] == LABELS[..i];
      }
      ghost var resets := ops;
      assert LABELS[..|LABELS|] == LABELS;
      for k := 0 to |creds|
        invariant Supported(creds[..k])
        invariant ops == resets + AddEntries(credentialsPath, Entries(creds[..k]))
        invariant State() == old(State())
      {
        var obj := Translate(creds[k]);
        if obj.Err? {
          FirstErrorAt(creds, k);
          return Err(obj.error);
        }
        assert creds[..k + 1] == creds[..k] + [creds[k]];
        ops := ops + [Add(credentialsPath + "/" + creds[k].kind + "/-", obj.value)];
        assert Entries(creds[..k + 1]) == Entries(creds[..k]) + [Entry(creds[k].kind, obj.value)];
      }
      assert creds[..|creds|] == creds;
      r := httpbin.Patch(ops, up);
    }

    method RemoveCredentials(kinds: seq<string>, up: bool) returns (r: Result<bool, Raised>)
      modifies httpbin
      ensures credentials == old(credentials)
      ensures var patched := ApplyAll(old(httpbin.document), ResetMembers(credentialsPath, kinds));
        if up && patched.Some? then r.Ok? && httpbin.document == patched.value
        else r.Err? && httpbin.document == old(httpbin.document)
    {
      var ops := [];
      for i := 0 to |kinds|
        invariant ops == ResetMembers(credentialsPath, kinds[..i])
        invariant httpbin.document == old(httpbin.document)
      {
        var path := credentialsPath + "/" + kinds[i];
        ops := ops + [Remove(path), Add(path, Arr([]))];
        assert kinds[..i + 1][..i] == kinds[..i];
      }
      assert kinds[..|kinds|] == kinds;
      r := httpbin.Patch(ops, up);
    }

    method SynchroniseCredentials(config: ProxyConfig, up: bool) returns (r: Result<bool, Raised>)
      modifies this, httpbin
      ensures (State(), r) == Synchronise(credentialsPath, old(State()), config, up)
    {
      var location := WasmLocation(config.location);
      if location.None? { return Err(KeyError); }
      var creds: seq<Credential> := [];
      match config.method_ {
        case UserKey =>
          var only := Credential("user_key", location.value, Some(config.userKey));
          creds := creds + [only];
          assert creds == [only];
        case AppIdKey =>
          var first := Credential("app_id", location.value, Some(config.appId));
          var second := Credential("app_key", location.value, Some(config.appKey));
          creds := creds + [first];
          creds := creds + [second];
          assert creds == [first, second];
        case Oidc =>
          var only := Credential("app_id", "oidc", None);
          creds := creds + [only];
          assert creds == [only];
        case OtherMethod =>
      }
      if credentials.None? || credentials.value == [] || credentials.value != creds {
        assert CredentialsOf(config) == Ok(creds);
        credentials := Some(creds);
        assert State() == old(State()).(cache := Some(creds));
        r := ReplaceCredentials(creds, up);
        return;
      }
      return Ok(false);
    }

    /** The part of the gateway's `_create_api_client` that touches the extension. */
    method SynchroniseAndRollOut(config: ProxyConfig, up: bool, rolls: bool) returns (r: Result<bool, Raised>)
      modifies this, httpbin
      ensures (State(), r) == CreateClient(credentialsPath, old(State()), config, up, rolls)
    {
      r := SynchroniseCredentials(config, up);
      if r.Ok? && r.value {
        r := httpbin.Rollout(rolls);
      }
    }

    method ReplaceAuthorities(authorities: seq<string>, wait: bool, overwrite: bool, up: bool, rolls: bool)
      returns (r: Result<bool, Raised>)
      modifies httpbin
      ensures var patched := ApplyAll(old(httpbin.document), ReplaceList(authoritiesPath, Texts(authorities), overwrite));
        && httpbin.document == (if up && patched.Some? then patched.value else old(httpbin.document))
        && (r.Ok? <==> up && patched.Some? && (wait ==> rolls))
        && (r.Ok? && wait ==> !httpbin.pending)
    {
      var path := authoritiesPath;
      var ops := [];
      if overwrite {
        ops := ops + [Remove(path), Add(path, Arr([]))];
      }
      ghost var resets := ops;
      for k := 0 to |authorities|
        invariant ops == resets + Append(path, Texts(authorities[..k]))
        invariant httpbin.document == old(httpbin.document)
      {
        ops := ops + [Add(path + "/-", Str(authorities[k]))];
      }
      assert authorities[..|authorities|] == authorities;
      r := httpbin.Patch(ops, up);
      if r.Ok? && wait {
        r := httpbin.Rollout(rolls);
      }
    }
  }

  /** `extensions` maps service ids to extension objects; `model` is the value the runs of
      WasmRuns speak about, tied to the objects by `Valid`. */
  class MeshGateway {
    const credentialsPath: string
    var extensions: map<string, WasmExtension>
    ghost var model: Gateway

    ghost predicate Valid()
      reads this, extensions.Values, set e | e in extensions.Values :: e.httpbin
    {
      && credentialsPath == CREDENTIALS_PATH
      && model.Keys == extensions.Keys
      && (forall id :: id in extensions ==>
            extensions[id].credentialsPath == credentialsPath && extensions[id].State() == model[id].ext)
      && (forall a, b :: a in extensions && b in extensions && a != b ==>
            extensions[a] != extensions[b] && extensions[a].httpbin != extensions[b].httpbin)
    }

    constructor ()
      ensures Valid() && model == map[]
    {
      credentialsPath := CREDENTIALS_PATH;
      extensions := map[];
      model := map[];
    }

    /** Creating the extension's objects may raise before it is stored. */
    method OnServiceCreate(id: string, document: Value, up: bool) returns (r: Result<bool, Raised>)
      requires Valid()
      modifies this
      ensures Valid()
      ensures (model, r) == Step(credentialsPath, old(model), ServiceCreated(id, document, up))
    {
      if !up { return Err(Unreachable); }
      var extension := new WasmExtension(document);
      extensions := extensions[id := extension];
      model := model[id := Tracked(Extension(document, None, false), true, document, None)];
      return Ok(true);
    }

    /** The extension's own deletion comes first; when it raises the entry stays. */
    method OnServiceDelete(id: string, up: bool) returns (r: Result<bool, Raised>)
      requires Valid()
      modifies this
      ensures Valid()
      ensures (model, r) == Step(credentialsPath, old(model), ServiceDeleted(id, up))
    {
      if id !in extensions { return Err(KeyError); }
      if !up { return Err(Unreachable); }
      extensions := extensions - {id};
      model := model - {id};
      return Ok(true);
    }

    method CreateApiClient(id: string, config: ProxyConfig, up: bool, rolls: bool) returns (r: Result<bool, Raised>)
      requires Valid()
      modifies this, extensions.Values, set e | e in extensions.Values :: e.httpbin
      ensures Valid() && extensions == old(extensions)
      ensures (model, r) == Step(credentialsPath, old(model), ClientCall(id, config, up, rolls))
    {
      if id !in extensions { return Err(KeyError); }
      r := extensions[id].SynchroniseAndRollOut(config, up, rolls);
      model := Step(credentialsPath, model, ClientCall(id, config, up, rolls)).0;
    }
  }
}
