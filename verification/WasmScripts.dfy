/** The JSON Patch scripts of `testsuite/gateways/wasm/extension.py`, as functions from the
    caller's data to operations, and what applying each script does to a plugin document. */
module WasmScripts {
  import opened Wrappers
  import opened Json
  import opened JsonPointer
  import opened JsonPatch
  import opened PatchScripts

  datatype Raised = NotImplemented | KeyError | Rejected | Unreachable

  // ----- Data the scripts are built from

  /** A dictionary {"label", "credential_location", "key"}; the OIDC one has no "key". */
  datatype Credential = Credential(kind: string, location: string, key: Option<string>)

  datatype MappingRule = MappingRule(httpMethod: string, pattern: string, metric: string, delta: int, last: bool)

  const LABELS: seq<string> := ["user_key", "app_id", "app_key"]

  /** The list entry one credential becomes; a location outside the documented four becomes null. */
  function Translate(cred: Credential): Result<Value, Raised> {
    if cred.location == "query_string" || cred.location == "header" then
      if cred.key.None? then Err(KeyError)
      else Ok(Obj(map[cred.location := Obj(map["keys" := Arr([Str(cred.key.value)])])]))
    else if cred.location == "authorization" then Err(NotImplemented)
    else if cred.location == "oidc" then
      Ok(Obj(map["filter" := Obj(map[
        "path" := Arr([Str("envoy.filters.http.jwt_authn"), Str("0")]),
        "keys" := Arr([Str("azp"), Str("aud")]),
        "ops" := Arr([Obj(map["take" := Obj(map["head" := Num(1)])])])])]))
    else Ok(Null)
  }

  predicate Supported(creds: seq<Credential>) {
    forall k :: 0 <= k < |creds| ==> Translate(creds[k]).Ok?
  }

  function RuleValue(rule: MappingRule): Value {
    Obj(map[
      "method" := Str(rule.httpMethod),
      "pattern" := Str(rule.pattern),
      "usages" := Arr([Obj(map["name" := Str(rule.metric), "delta" := Num(rule.delta)])]),
      "last" := Bool(rule.last)])
  }

  // ----- Scripts. `base` is the text of the path of the object whose members they change,
  // and `at` the same path in tokens, where `Print(at) == base`.

  function Entries(creds: seq<Credential>): seq<Entry>
    requires Supported(creds)
  {
    seq(|creds|, k requires 0 <= k < |creds| => Entry(creds[k].kind, Translate(creds[k]).value))
  }

  /** What building the entries raises: the error of the first credential that has one. */
  function FirstError(creds: seq<Credential>): Raised
    requires !Supported(creds)
  {
    if Translate(creds[0]).Err? then Translate(creds[0]).error
    else
      assert exists k :: 0 <= k < |creds| && Translate(creds[k]).Err? && creds[1..][k - 1] == creds[k];
      FirstError(creds[1..])
  }

  function ReplaceCredentials(base: string, creds: seq<Credential>): Result<seq<Operation>, Raised> {
    if Supported(creds) then Ok(ResetMembers(base, LABELS) + AddEntries(base, Entries(creds)))
    else Err(FirstError(creds))
  }

  function RuleValues(rules: seq<MappingRule>): seq<Value> {
    seq(|rules|, k requires 0 <= k < |rules| => RuleValue(rules[k]))
  }

  function Texts(strings: seq<string>): seq<Value> {
    seq(|strings|, k requires 0 <= k < |strings| => Str(strings[k]))
  }

  function ReplaceList(path: string, values: seq<Value>, overwrite: bool): seq<Operation> {
    (if overwrite then Reset(path) else []) + Append(path, values)
  }

  // ----- Credentials

  /** The document has the object of credential lists, with all three members. */
  predicate HasLabels(doc: Value, at: Tokens) {
    Eval(doc, at).Some? && Eval(doc, at).value.Obj? &&
    forall kind :: kind in LABELS ==> kind in Eval(doc, at).value.members
  }

  predicate Labelled(creds: seq<Credential>) {
    forall k :: 0 <= k < |creds| ==> creds[k].kind in LABELS
  }

  /** The translations of the credentials with this label, in order. */
  function Selected(creds: seq<Credential>, kind: string): seq<Value>
    requires Supported(creds)
  {
    if creds == [] then []
    else (if creds[0].kind == kind then [Translate(creds[0]).value] else []) + Selected(creds[1..], kind)
  }

  /** The members with the three lists set from the credentials. */
  function WithLists(members: map<string, Value>, creds: seq<Credential>): map<string, Value>
    requires Supported(creds)
  {
    map kind | kind in members ::
      if kind in LABELS then Arr(Selected(creds, kind)) else members[kind]
  }

  lemma {:induction false} EntriesSelect(creds: seq<Credential>, kind: string)
    requires Supported(creds)
    ensures ValuesOf(Entries(creds), kind) == Selected(creds, kind)
  {
    if creds != [] {
      EntriesSelect(creds[1..], kind);
      assert Entries(creds)[1..] == Entries(creds[1..]);
    }
  }

  lemma {:induction false} LabelsArePlain()
    ensures PlainNames(LABELS)
  {
  }

  /** The script of `replace_credentials` succeeds exactly on documents holding the three
      labels; then each label's list is the in-order translation of its credentials, and the
      rest of the document is as it was. */
  lemma {:induction false} ReplaceCredentialsExact(doc: Value, base: string, at: Tokens, creds: seq<Credential>)
    requires Print(at) == base && Labelled(creds) && Supported(creds)
    ensures ApplyAll(doc, ReplaceCredentials(base, creds).value) ==
            if HasLabels(doc, at)
            then Some(Put(doc, at, Obj(WithLists(Eval(doc, at).value.members, creds))))
            else None
  {
    LabelsArePlain();
    ApplyAllConcat(doc, ResetMembers(base, LABELS), AddEntries(base, Entries(creds)));
    if Eval(doc, at).Some? && Eval(doc, at).value.Obj? {
      var members := Eval(doc, at).value.members;
      ResetMembersExact(doc, base, at, members, LABELS);
      if HasLabels(doc, at) {
        AddToEmptied(doc, base, at, members, creds);
      }
    } else {
      LabelsNeedAnObject(doc, base, at, LABELS);
    }
  }

  /** Names that are no array index cannot be reset unless an object stands at the base. */
  lemma {:induction false} LabelsNeedAnObject(doc: Value, base: string, at: Tokens, names: seq<string>)
    requires Print(at) == base && |names| > 0 && Plain(names[0])
    requires names[0] != [] && !('0' <= names[0][0] <= '9')
    requires Eval(doc, at).Some? ==> !Eval(doc, at).value.Obj?
    ensures ApplyAll(doc, ResetMembers(base, names)) == None
  {
    EvalConcat(doc, at, [names[0]]);
    ResetMembersRefused(doc, base, at, names);
  }

  lemma {:induction false} AddToEmptied(doc: Value, base: string, at: Tokens, members: map<string, Value>,
          creds: seq<Credential>)
    requires Print(at) == base && Labelled(creds) && Supported(creds)
    requires Eval(doc, at).Some? && forall kind :: kind in LABELS ==> kind in members
    ensures ApplyAll(Put(doc, at, Obj(Emptied(members, LABELS))), AddEntries(base, Entries(creds))) ==
            Some(Put(doc, at, Obj(WithLists(members, creds))))
  {
    var emptied, entries := Emptied(members, LABELS), Entries(creds);
    LabelsArePlain();
    PutThenRead(doc, at, Obj(emptied), Obj(WithLists(members, creds)));
    forall k | 0 <= k < |entries|
      ensures Plain(entries[k].name) && entries[k].name in emptied && emptied[entries[k].name].Arr?
    {
      assert entries[k].name == creds[k].kind && creds[k].kind in LABELS;
    }
    AddEntriesExact(Put(doc, at, Obj(emptied)), base, at, emptied, entries);
    ExtendedIsWithLists(members, creds);
  }

  lemma {:induction false} ExtendedIsWithLists(members: map<string, Value>, creds: seq<Credential>)
    requires Labelled(creds) && Supported(creds)
    ensures Extended(Emptied(members, LABELS), Entries(creds)) == WithLists(members, creds)
  {
    var emptied := Emptied(members, LABELS);
    forall kind | kind in members
      ensures Extended(emptied, Entries(creds))[kind] == WithLists(members, creds)[kind]
    {
      EntriesSelect(creds, kind);
      if kind in LABELS {
        assert [] + Selected(creds, kind) == Selected(creds, kind);
      } else {
        NotSelected(creds, kind);
        if members[kind].Arr? { assert members[kind].items + [] == members[kind].items; }
      }
    }
  }

  lemma {:induction false} NotSelected(creds: seq<Credential>, kind: string)
    requires Labelled(creds) && Supported(creds) && kind !in LABELS
    ensures Selected(creds, kind) == []
  {
    if creds != [] {
      assert creds[0].kind in LABELS;
      NotSelected(creds[1..], kind);
    }
  }

  /** Every label's list is the translation of these credentials. */
  predicate Deploys(doc: Value, at: Tokens, creds: seq<Credential>) {
    Supported(creds) &&
    forall kind :: kind in LABELS ==> Eval(doc, at + [kind]) == Some(Arr(Selected(creds, kind)))
  }

  /** The same effect read location by location: the three lists are deployed, and every
      location that is neither above nor below one of them references what it did before. */
  lemma {:induction false} ReplaceCredentialsDeploys(doc: Value, base: string, at: Tokens,
          creds: seq<Credential>, elsewhere: Tokens)
    requires Print(at) == base && Labelled(creds) && Supported(creds) && HasLabels(doc, at)
    ensures ApplyAll(doc, ReplaceCredentials(base, creds).value).Some?
    ensures var doc' := ApplyAll(doc, ReplaceCredentials(base, creds).value).value;
      && HasLabels(doc', at)
      && Deploys(doc', at, creds)
      && ((forall kind :: kind in LABELS ==> !Comparable(at + [kind], elsewhere)) ==>
            Eval(doc', elsewhere) == Eval(doc, elsewhere))
  {
    ReplaceCredentialsExact(doc, base, at, creds);
    var members := Eval(doc, at).value.members;
    var lists := WithLists(members, creds);
    var doc' := Put(doc, at, Obj(lists));
    PutThenRead(doc, at, Obj(lists), Null);
    forall kind | kind in LABELS ensures Eval(doc', at + [kind]) == Some(Arr(Selected(creds, kind))) {
      PutMember(doc, at, lists, kind, Null);
    }
    if forall kind :: kind in LABELS ==> !Comparable(at + [kind], elsewhere) {
      PutMembersFrame(doc, at, lists, LABELS, elsewhere);
    }
  }

  /** Replacing an object by one that differs only in some members leaves every location
      alone that is neither above nor below one of those. */
  lemma {:induction false} PutMembersFrame(doc: Value, at: Tokens, members: map<string, Value>,
          names: seq<string>, elsewhere: Tokens)
    requires Eval(doc, at).Some? && Eval(doc, at).value.Obj?
    requires var old_members := Eval(doc, at).value.members;
      members.Keys == old_members.Keys &&
      forall name :: name in members && name !in names ==> members[name] == old_members[name]
    requires names != [] && forall name :: name in names ==> !Comparable(at + [name], elsewhere)
    ensures Eval(Put(doc, at, Obj(members)), elsewhere) == Eval(doc, elsewhere)
  {
    assert !Comparable(at + [names[0]], elsewhere);
    if at <= elsewhere {
      var below := elsewhere[|at|..];
      assert elsewhere == at + below;
      assert below != [] && below[0] !in names by {
        assert below != [] ==> at + [below[0]] <= elsewhere;
      }
      PutThenRead(doc, at, Obj(members), Null);
      EvalConcat(doc, at, below);
      EvalConcat(Put(doc, at, Obj(members)), at, below);
    } else {
      PutFrame(doc, at, Obj(members), elsewhere);
    }
  }

  /** `remove_credentials` on labels that are all there empties exactly those lists. */
  lemma {:induction false} RemoveCredentialsExact(doc: Value, base: string, at: Tokens, members: map<string,
          Value>, kinds: seq<string>)
    requires Print(at) == base && PlainNames(kinds) && Eval(doc, at) == Some(Obj(members))
    ensures ApplyAll(doc, ResetMembers(base, kinds)) ==
            if forall kind :: kind in kinds ==> kind in members
            then Some(Put(doc, at, Obj(Emptied(members, kinds)))) else None
    ensures kinds == LABELS ==> Emptied(members, kinds) == WithLists(members, [])
  {
    ResetMembersExact(doc, base, at, members, kinds);
  }

  // ----- List fields of the service: mapping rules and authorities

  /** Resetting a list field and appending to it leaves exactly the given list there and the
      rest alone; it is refused exactly when the field is missing. */
  lemma {:induction false} ReplaceListExact(doc: Value, base: string, at: Tokens, field: string, values: seq<Value>)
    requires Print(at) == base && Plain(field)
    ensures ApplyAll(doc, ReplaceList(base + "/" + field, values, true)) ==
            if Eval(doc, at + [field]).None? then None else Some(Put(doc, at + [field], Arr(values)))
  {
    var path, place := base + "/" + field, at + [field];
    MemberPath(base, at, field);
    ResetEffect(doc, at, field, path);
    ApplyAllConcat(doc, Reset(path), Append(path, values));
    if Eval(doc, place).Some? {
      PutThenRead(doc, place, Arr([]), Arr(values));
      AppendEffect(Put(doc, place, Arr([])), place, path, [], values);
      assert [] + values == values;
    }
  }

  /** Replacing a list by `a` and then adding `b` without overwriting is replacing it by `a + b`. */
  lemma {:induction false} ReplaceThenAdd(doc: Value, path: string, a: seq<Value>, b: seq<Value>)
    ensures var first := ApplyAll(doc, ReplaceList(path, a, true));
      ApplyAll(doc, ReplaceList(path, a + b, true)) ==
      if first.None? then None else ApplyAll(first.value, ReplaceList(path, b, false))
  {
    var x, y := ReplaceList(path, a, true), ReplaceList(path, b, false);
    ApplyAllConcat(doc, x, y);
    assert Append(path, a) + Append(path, b) == Append(path, a + b);
    assert x + y == ReplaceList(path, a + b, true);
  }
}
