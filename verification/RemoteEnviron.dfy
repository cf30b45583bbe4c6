/** A remote deployment's environment as `testsuite/openshift/env.py` writes and reads it: what
    writes do to the listing, and the dictionary it stands for. */
module RemoteEnviron {
  import opened Wrappers
  import opened EnvListing

  // ----- The remote side

  function IndexOf(vars: Remote, name: string): (i: nat)
    ensures i <= |vars|
    ensures i < |vars| ==> vars[i].0 == name
    ensures forall j :: 0 <= j < i ==> vars[j].0 != name
  {
    if vars == [] || vars[0].0 == name then 0 else 1 + IndexOf(vars[1..], name)
  }

  /** `oc set env NAME=TEXT`: replaces a variable of that name, of whatever kind, or adds one. */
  function Put(vars: Remote, name: string, text: string): Remote {
    var i := IndexOf(vars, name);
    if i < |vars| then vars[i := (name, Plain(text))] else vars + [(name, Plain(text))]
  }

  function PutAll(vars: Remote, args: seq<(string, string)>): Remote
    decreases |args|
  {
    if args == [] then vars else PutAll(Put(vars, args[0].0, args[0].1), args[1..])
  }

  /** `oc set env NAME-` */
  function Drop(vars: Remote, name: string): Remote {
    var i := IndexOf(vars, name);
    if i < |vars| then vars[..i] + vars[i + 1..] else vars
  }

  ghost predicate Sound(header: string, vars: Remote) {
    WellFormed(header, vars) && AllListed(vars)
  }

  lemma {:induction false} PutSound(header: string, vars: Remote, name: string, text: string)
    requires Sound(header, vars) && OneLine(name, Plain(text))
    ensures Sound(header, Put(vars, name, text))
  {
    var after, i := Put(vars, name, text), IndexOf(vars, name);
    forall k | 0 <= k < |after| ensures after[k] == if k == i then (name, Plain(text)) else vars[k] {
    }
  }

  lemma {:induction false} DropSound(header: string, vars: Remote, name: string)
    requires Sound(header, vars)
    ensures Sound(header, Drop(vars, name))
  {
    DropIndices(vars, name);
    var after, n := Drop(vars, name), IndexOf(vars, name);
    forall k | 0 <= k < |after|
      ensures OneLine(after[k].0, after[k].1) && Listed(after[k].0, after[k].1)
    {
      assert after[k] == vars[if k < n then k else k + 1];
    }
  }

  function Lookup(vars: Remote, name: string): Option<Var> {
    var i := IndexOf(vars, name);
    if i < |vars| then Some(vars[i].1) else None
  }

  lemma {:induction false} LookupAt(vars: Remote, i: nat)
    requires Distinct(vars) && i < |vars|
    ensures Lookup(vars, vars[i].0) == Some(vars[i].1)
  {
  }

  /** What a read finds under a name: the remote variable, if readable. */
  lemma {:induction false} ParsedExact(header: string, vars: Remote, name: string)
    requires Sound(header, vars) && '=' !in name
    ensures var found := Lookup(vars, name);
      if found.Some? && Readable(name, found.value) then name in Parsed(header, vars) && Parsed(header, vars)[name] == found.value
      else name !in Parsed(header, vars)
  {
    ListingLines(header, vars);
    CollectExact(header, vars, name, IndexOf(vars, name));
  }

  lemma {:induction false} LookupAfterPut(vars: Remote, name: string, text: string, other: string)
    requires Distinct(vars)
    ensures Lookup(Put(vars, name, text), other) == if other == name then Some(Plain(text)) else Lookup(vars, other)
  {
    var after, i := Put(vars, name, text), IndexOf(vars, other);
    assert Distinct(after);
    if other == name {
      LookupAt(after, IndexOf(vars, name));
    } else if i < |vars| {
      assert after[i] == vars[i];
      LookupAt(after, i);
    }
  }

  lemma {:induction false} LookupAfterDrop(vars: Remote, name: string, other: string)
    requires Distinct(vars)
    ensures Lookup(Drop(vars, name), other) == if other == name then None else Lookup(vars, other)
  {
    var after, n, i := Drop(vars, name), IndexOf(vars, name), IndexOf(vars, other);
    DropIndices(vars, name);
    if n < |vars| && other != name && i < |vars| {
      var k := if i < n then i else i - 1;
      assert after[k] == vars[i];
      LookupAt(after, k);
    }
  }

  lemma {:induction false} DropIndices(vars: Remote, name: string)
    requires Distinct(vars)
    ensures var after, n := Drop(vars, name), IndexOf(vars, name);
      && Distinct(after)
      && forall k :: 0 <= k < |after| ==> after[k] == vars[if k < n then k else k + 1] && after[k].0 != name
  {
    var after, n := Drop(vars, name), IndexOf(vars, name);
    forall k | 0 <= k < |after| ensures after[k] == vars[if k < n then k else k + 1] {
    }
  }

  /** A read after a write finds what was written if and only if the text holds no "="; a text
      that does makes the variable unreadable. Other variables read as before. */
  lemma {:induction false} ReadAfterWrite(header: string, vars: Remote, name: string, text: string, other: string)
    requires Sound(header, vars) && OneLine(name, Plain(text))
    requires other != name && '=' !in other
    ensures var before, after := Parsed(header, vars), Parsed(header, Put(vars, name, text));
      && (name in after <==> '=' !in text)
      && (name in after ==> after[name] == Plain(text))
      && (other in after <==> other in before)
      && (other in after ==> after[other] == before[other])
  {
    var vars' := Put(vars, name, text);
    PutSound(header, vars, name, text);
    ParsedExact(header, vars', name);
    ParsedExact(header, vars', other);
    ParsedExact(header, vars, other);
    LookupAfterPut(vars, name, text, name);
    LookupAfterPut(vars, name, text, other);
  }

  /** After a deletion the name is gone and other variables read as before. */
  lemma {:induction false} ReadAfterDelete(header: string, vars: Remote, name: string, other: string)
    requires Sound(header, vars) && '=' !in name
    requires other != name && '=' !in other
    ensures var before, after := Parsed(header, vars), Parsed(header, Drop(vars, name));
      && name !in after
      && (other in after <==> other in before)
      && (other in after ==> after[other] == before[other])
  {
    DropSound(header, vars, name);
    ParsedExact(header, Drop(vars, name), name);
    ParsedExact(header, Drop(vars, name), other);
    ParsedExact(header, vars, other);
    LookupAfterDrop(vars, name, name);
    LookupAfterDrop(vars, name, other);
  }

  // ----- The client side

  /** A Python value handed to a setter: text or a bool. */
  datatype EnvValue = Text(text: string) | True | False

  /** What an f-string makes of it. */
  function Shown(v: EnvValue): string {
    match v case Text(text) => text case True => "True" case False => "False"
  }

  /** The workaround for APIcast, applied by `set_many` and when a new variable is set. */
  function Lowered(v: EnvValue): string {
    if v.True? then "true" else Shown(v)
  }

  datatype EnvError = KeyError | NotImplemented | Unreachable

  /** The `get` of the three classes of variable. */
  function ValueOf(v: Var, secret: (string, string) -> Option<string>, configMap: (string, string) -> Option<string>)
    : Result<string, EnvError>
  {
    match v
    case Plain(value) => Ok(value)
    case FromSecret(o, key) => (if secret(o, key).Some? then Ok(secret(o, key).value) else Err(KeyError))
    case FromConfigMap(o, key) => (if configMap(o, key).Some? then Ok(configMap(o, key).value) else Err(KeyError))
  }

  // ----- Runs

  datatype Op = SetOp(name: string, v: EnvValue) | DeleteOp(name: string) | SetManyOp(values: seq<(string, EnvValue)>)

  function LoweredAll(values: seq<(string, EnvValue)>): seq<(string, string)> {
    seq(|values|, k requires 0 <= k < |values| => (values[k].0, Lowered(values[k].1)))
  }

  /** What one operation does to the remote variables: it acts on what the listing says. */
  function Remotely(header: string, vars: Remote, op: Op): Remote {
    var known := Parsed(header, vars);
    match op
    case SetOp(name, v) =>
      if name in known && !known[name].Plain? then vars
      else Put(vars, name, if name in known then Shown(v) else Lowered(v))
    case DeleteOp(name) => if name in known && known[name].Plain? then Drop(vars, name) else vars
    case SetManyOp(values) => PutAll(vars, LoweredAll(values))
  }

  /** The same on a plain dictionary that refuses to touch references one by one: a text is stored
      as it is, and a bool by name, in small letters when it is True and the name is new or one of
      several. */
  function OnDictionary(d: map<string, Var>, op: Op): map<string, Var> {
    match op
    case SetOp(name, Text(text)) => if name in d && !d[name].Plain? then d else d[name := Plain(text)]
    case SetOp(name, True) =>
      if name !in d then d[name := Plain("true")] else if d[name].Plain? then d[name := Plain("True")] else d
    case SetOp(name, False) => if name in d && !d[name].Plain? then d else d[name := Plain("False")]
    case DeleteOp(name) => if name in d && d[name].Plain? then d - {name} else d
    case SetManyOp(values) => SetAll(d, values)
  }

  function SetAll(d: map<string, Var>, values: seq<(string, EnvValue)>): map<string, Var>
    decreases |values|
  {
    if values == [] then d
    else
      var (name, v) := values[0];
      SetAll(d[name := Plain(match v case Text(text) => text case True => "true" case False => "False")], values[1..])
  }

  function UpdateAll(d: map<string, Var>, args: seq<(string, string)>): map<string, Var>
    decreases |args|
  {
    if args == [] then d else UpdateAll(d[args[0].0 := Plain(args[0].1)], args[1..])
  }

  lemma {:induction false} SetAllUpdates(d: map<string, Var>, values: seq<(string, EnvValue)>)
    ensures SetAll(d, values) == UpdateAll(d, LoweredAll(values))
    decreases |values|
  {
    if values != [] {
      var (name, v) := values[0];
      assert LoweredAll(values)[1..] == LoweredAll(values[1..]);
      SetAllUpdates(d[name := Plain(Lowered(v))], values[1..]);
    }
  }

  function RemotelyAll(header: string, vars: Remote, ops: seq<Op>): Remote
    decreases |ops|
  {
    if ops == [] then vars else RemotelyAll(header, Remotely(header, vars, ops[0]), ops[1..])
  }

  function OnDictionaryAll(d: map<string, Var>, ops: seq<Op>): map<string, Var>
    decreases |ops|
  {
    if ops == [] then d else OnDictionaryAll(OnDictionary(d, ops[0]), ops[1..])
  }

  /** A name and text that survive the listing. */
  ghost predicate Writable(name: string, text: string) {
    OneLine(name, Plain(text)) && '=' !in text
  }

  ghost predicate WritableOp(op: Op) {
    match op
    case SetOp(name, v) => Writable(name, Shown(v))
    case DeleteOp(name) => true
    case SetManyOp(values) => forall k :: 0 <= k < |values| ==> Writable(values[k].0, Shown(values[k].1))
  }

  ghost predicate AllReadable(header: string, vars: Remote) {
    WellFormed(header, vars) && forall i :: 0 <= i < |vars| ==> Readable(vars[i].0, vars[i].1)
  }

  lemma {:induction false} LoweredWritable(name: string, v: EnvValue)
    requires Writable(name, Shown(v))
    ensures Writable(name, Lowered(v))
  {
  }

  lemma {:induction false} MapOfLookup(vars: Remote, name: string)
    requires Distinct(vars)
    ensures name in MapOf(vars) <==> Lookup(vars, name).Some?
    ensures name in MapOf(vars) ==> MapOf(vars)[name] == Lookup(vars, name).value
  {
    MapOfExact(vars, name);
  }

  lemma {:induction false} PutEntry(vars: Remote, name: string, text: string, other: string)
    requires Distinct(vars)
    ensures Distinct(Put(vars, name, text))
    ensures other in MapOf(Put(vars, name, text)) <==> other in MapOf(vars) || other == name
    ensures other in MapOf(Put(vars, name, text)) ==>
      MapOf(Put(vars, name, text))[other] == if other == name then Plain(text) else MapOf(vars)[other]
  {
    PutDistinct(vars, name, text);
    MapOfLookup(Put(vars, name, text), other);
    MapOfLookup(vars, other);
    LookupAfterPut(vars, name, text, other);
  }

  lemma {:induction false} PutDistinct(vars: Remote, name: string, text: string)
    requires Distinct(vars)
    ensures Distinct(Put(vars, name, text))
  {
    var after, i := Put(vars, name, text), IndexOf(vars, name);
    forall k | 0 <= k < |after| ensures after[k] == if k == i then (name, Plain(text)) else vars[k] {
    }
  }

  /** A write is a dictionary update, whatever the texts hold. */
  lemma {:induction false} PutMap(vars: Remote, name: string, text: string)
    requires Distinct(vars)
    ensures Distinct(Put(vars, name, text))
    ensures MapOf(Put(vars, name, text)) == MapOf(vars)[name := Plain(text)]
  {
    PutDistinct(vars, name, text);
    var after, updated := MapOf(Put(vars, name, text)), MapOf(vars)[name := Plain(text)];
    forall other ensures (other in after <==> other in updated) && (other in after ==> after[other] == updated[other]) {
      PutEntry(vars, name, text, other);
    }
  }

  lemma {:induction false} PutAllMap(vars: Remote, args: seq<(string, string)>)
    requires Distinct(vars)
    ensures Distinct(PutAll(vars, args)) && MapOf(PutAll(vars, args)) == UpdateAll(MapOf(vars), args)
    decreases |args|
  {
    if args != [] {
      PutMap(vars, args[0].0, args[0].1);
      PutAllMap(Put(vars, args[0].0, args[0].1), args[1..]);
    }
  }

  lemma {:induction false} DropMap(vars: Remote, name: string)
    requires Distinct(vars)
    ensures Distinct(Drop(vars, name)) && MapOf(Drop(vars, name)) == MapOf(vars) - {name}
  {
    DropIndices(vars, name);
    var after, removed := MapOf(Drop(vars, name)), MapOf(vars) - {name};
    forall other ensures (other in after <==> other in removed) && (other in after ==> after[other] == removed[other]) {
      DropEntry(vars, name, other);
    }
  }

  lemma {:induction false} PutIsUpdate(header: string, vars: Remote, name: string, text: string)
    requires AllReadable(header, vars) && Writable(name, text)
    ensures AllReadable(header, Put(vars, name, text))
    ensures MapOf(Put(vars, name, text)) == MapOf(vars)[name := Plain(text)]
  {
    PutSound(header, vars, name, text);
    PutMap(vars, name, text);
  }

  lemma {:induction false} DropReadable(header: string, vars: Remote, name: string)
    requires AllReadable(header, vars)
    ensures AllReadable(header, Drop(vars, name))
  {
    var after, n := Drop(vars, name), IndexOf(vars, name);
    DropIndices(vars, name);
    forall k | 0 <= k < |after| ensures OneLine(after[k].0, after[k].1) && Readable(after[k].0, after[k].1) {
      assert after[k] == vars[if k < n then k else k + 1];
    }
  }

  lemma {:induction false} DropEntry(vars: Remote, name: string, other: string)
    requires Distinct(vars)
    ensures other in MapOf(Drop(vars, name)) <==> other in MapOf(vars) && other != name
    ensures other in MapOf(Drop(vars, name)) ==> MapOf(Drop(vars, name))[other] == MapOf(vars)[other]
  {
    DropIndices(vars, name);
    MapOfLookup(Drop(vars, name), other);
    MapOfLookup(vars, other);
    LookupAfterDrop(vars, name, other);
  }

  lemma {:induction false} DropIsRemoval(header: string, vars: Remote, name: string)
    requires AllReadable(header, vars)
    ensures AllReadable(header, Drop(vars, name))
    ensures MapOf(Drop(vars, name)) == MapOf(vars) - {name}
  {
    DropReadable(header, vars, name);
    DropMap(vars, name);
  }

  lemma {:induction false} PutAllIsUpdate(header: string, vars: Remote, args: seq<(string, string)>)
    requires AllReadable(header, vars) && forall k :: 0 <= k < |args| ==> Writable(args[k].0, args[k].1)
    ensures AllReadable(header, PutAll(vars, args))
    ensures MapOf(PutAll(vars, args)) == UpdateAll(MapOf(vars), args)
    decreases |args|
  {
    if args != [] {
      PutIsUpdate(header, vars, args[0].0, args[0].1);
      PutAllIsUpdate(header, Put(vars, args[0].0, args[0].1), args[1..]);
    }
  }

  lemma {:induction false} OneOperation(header: string, vars: Remote, op: Op)
    requires AllReadable(header, vars) && WritableOp(op)
    ensures AllReadable(header, Remotely(header, vars, op))
    ensures Parsed(header, Remotely(header, vars, op)) == OnDictionary(Parsed(header, vars), op)
  {
    ListingRoundTrip(header, vars);
    match op {
      case SetOp(name, v) =>
        LoweredWritable(name, v);
        PutIsUpdate(header, vars, name, Shown(v));
        PutIsUpdate(header, vars, name, Lowered(v));
      case DeleteOp(name) => DropIsRemoval(header, vars, name);
      case SetManyOp(values) =>
        var args := LoweredAll(values);
        forall k | 0 <= k < |args| ensures Writable(args[k].0, args[k].1) {
          LoweredWritable(values[k].0, values[k].1);
        }
        PutAllIsUpdate(header, vars, args);
        SetAllUpdates(MapOf(vars), values);
    }
    ListingRoundTrip(header, Remotely(header, vars, op));
  }

  /** Over every run of sets, deletions and bulk sets with writable texts, what the listing
      says is what the same run leaves in a plain dictionary. */
  lemma {:induction false} RunIsDictionary(header: string, vars: Remote, ops: seq<Op>)
    requires AllReadable(header, vars) && forall k :: 0 <= k < |ops| ==> WritableOp(ops[k])
    ensures Parsed(header, RemotelyAll(header, vars, ops)) == OnDictionaryAll(Parsed(header, vars), ops)
    decreases |ops|
  {
    if ops != [] {
      OneOperation(header, vars, ops[0]);
      RunIsDictionary(header, Remotely(header, vars, ops[0]), ops[1..]);
    }
  }

  // ----- What is stored under a name

  /** A set stores the very text it is given, "False" for the bool False, and "true" for True, or
      "True" where the name was known; every other variable reads as before. */
  lemma {:induction false} SetStores(header: string, vars: Remote, name: string, v: EnvValue, other: string)
    requires Sound(header, vars) && Writable(name, Shown(v)) && other != name && '=' !in other
    requires name in Parsed(header, vars) ==> Parsed(header, vars)[name].Plain?
    ensures var before, after := Parsed(header, vars), Parsed(header, Remotely(header, vars, SetOp(name, v)));
      && name in after
      && (match v
          case Text(text) => after[name] == Plain(text)
          case True => after[name] == Plain(if name in before then "True" else "true")
          case False => after[name] == Plain("False"))
      && (other in after <==> other in before)
      && (other in after ==> after[other] == before[other])
  {
    LoweredWritable(name, v);
    ReadAfterWrite(header, vars, name, if name in Parsed(header, vars) then Shown(v) else Lowered(v), other);
  }

  /** The bool True reads back as "true" exactly when the name was not known. */
  lemma {:induction false} TrueExact(header: string, vars: Remote, name: string, other: string)
    requires Sound(header, vars) && Writable(name, Shown(True)) && other != name && '=' !in other
    requires name in Parsed(header, vars) ==> Parsed(header, vars)[name].Plain?
    ensures var after := Parsed(header, Remotely(header, vars, SetOp(name, True)));
      name in after && (after[name] == Plain("true") <==> name !in Parsed(header, vars))
  {
    SetStores(header, vars, name, True, other);
    assert "True"[0] != "true"[0];
  }

  ghost predicate DistinctValues(values: seq<(string, EnvValue)>) {
    forall i, j :: 0 <= i < j < |values| ==> values[i].0 != values[j].0
  }

  lemma {:induction false} SetAllAt(d: map<string, Var>, values: seq<(string, EnvValue)>, name: string, k: int)
    requires DistinctValues(values)
    requires 0 <= k < |values| ==> values[k].0 == name
    requires !(0 <= k < |values|) ==> forall i :: 0 <= i < |values| ==> values[i].0 != name
    ensures var after := SetAll(d, values);
      if 0 <= k < |values| then
        name in after && after[name] == Plain(match values[k].1 case Text(text) => text case True => "true" case False => "False")
      else (name in after <==> name in d) && (name in d ==> after[name] == d[name])
    decreases |values|
  {
    if values != [] {
      var (first, v) := values[0];
      SetAllAt(d[first := Plain(match v case Text(text) => text case True => "true" case False => "False")], values[1..], name,
               if 0 < k < |values| then k - 1 else -1);
    }
  }

  /** A bulk set stores every text it is given under its name, whatever was there, and leaves all
      other names alone. */
  lemma {:induction false} SetManyStores(header: string, vars: Remote, values: seq<(string, EnvValue)>, k: nat, other: string)
    requires AllReadable(header, vars) && WritableOp(SetManyOp(values)) && DistinctValues(values) && k < |values|
    requires forall i :: 0 <= i < |values| ==> values[i].0 != other
    ensures var before, after := Parsed(header, vars), Parsed(header, Remotely(header, vars, SetManyOp(values)));
      && values[k].0 in after
      && (match values[k].1
          case Text(text) => after[values[k].0] == Plain(text)
          case True => after[values[k].0] == Plain("true")
          case False => after[values[k].0] == Plain("False"))
      && (other in after <==> other in before)
      && (other in after ==> after[other] == before[other])
  {
    OneOperation(header, vars, SetManyOp(values));
    SetAllAt(Parsed(header, vars), values, values[k].0, k);
    SetAllAt(Parsed(header, vars), values, other, -1);
  }
}
