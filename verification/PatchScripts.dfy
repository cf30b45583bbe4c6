/** The two idioms every script of the WASM extension is made of: resetting a member to an
    empty list ("remove" then "add") and appending to a list ("add" at "-"). */
module PatchScripts {
  import opened Wrappers
  import opened Json
  import opened JsonPointer
  import opened JsonPatch

  function Reset(path: string): seq<Operation> {
    [Remove(path), Add(path, Arr([]))]
  }

  function Append(path: string, values: seq<Value>): seq<Operation> {
    seq(|values|, k requires 0 <= k < |values| => Add(path + "/-", values[k]))
  }

  /** One reset for each of the named members of the object at `base`. */
  function ResetMembers(base: string, names: seq<string>): seq<Operation> {
    if names == [] then []
    else ResetMembers(base, names[..|names| - 1]) + Reset(base + "/" + names[|names| - 1])
  }

  /** One list entry, added to the list of the named member of the object at `base`. */
  datatype Entry = Entry(name: string, value: Value)

  function AddEntries(base: string, entries: seq<Entry>): seq<Operation> {
    seq(|entries|, k requires 0 <= k < |entries| => Add(base + "/" + entries[k].name + "/-", entries[k].value))
  }

  // ----- Paths

  lemma {:induction false} PrintConcat(a: Tokens, b: Tokens)
    ensures Print(a + b) == Print(a) + Print(b)
  {
    if a == [] {
      assert a + b == b;
    } else {
      assert (a + b)[1..] == a[1..] + b;
      PrintConcat(a[1..], b);
    }
  }

  lemma {:induction false} PrintPlain(token: string)
    requires Plain(token)
    ensures Print([token]) == "/" + token
  {
    EscapePlain(token);
    assert [token][1..] == [];
  }

  /** Extending a path by a plain token, and then by "-", in text and in tokens. */
  lemma {:induction false} MemberPath(base: string, at: Tokens, token: string)
    requires Print(at) == base && Plain(token)
    ensures Print(at + [token]) == base + "/" + token
    ensures Parse(base + "/" + token) == Some(at + [token])
    ensures Parse(base + "/" + token + "/-") == Some(at + [token] + ["-"])
  {
    PrintPlain(token);
    PrintPlain("-");
    PrintConcat(at, [token]);
    PrintConcat(at + [token], ["-"]);
    assert base + ("/" + token) == base + "/" + token;
    assert base + "/" + token + ("/" + "-") == base + "/" + token + "/-";
    ParsePrint(at + [token]);
    ParsePrint(at + [token] + ["-"]);
  }

  // ----- Effect of the building blocks

  /** Removing an existing member and adding it back only replaces its value. */
  lemma {:induction false} RemoveThenAdd(container: Value, token: string, value: Value)
    requires Child(container, token).Some?
    ensures AddChild(RemoveChild(container, token).value, token, value) == Some(SetChild(container, token, value))
  {
    if container.Obj? {
      assert (container.members - {token})[token := value] == container.members[token := value];
    } else {
      var i, items := ArrayIndex(token).value, container.items;
      var without := items[..i] + items[i + 1..];
      assert '0' <= token[0];
      assert without[..i] == items[..i] && without[i..] == items[i + 1..];
      assert without[..i] + [value] + without[i..] == items[i := value];
    }
  }

  /** Removing a member and adding an empty list back succeeds exactly when the member
      exists, and then only replaces it. */
  lemma {:induction false} ResetEffect(doc: Value, at: Tokens, token: string, path: string)
    requires Parse(path) == Some(at + [token])
    ensures ApplyAll(doc, Reset(path)) ==
            if Eval(doc, at + [token]).None? then None else Some(Put(doc, at + [token], Arr([])))
  {
    var ops := Reset(path);
    ApplyAtContainer(doc, at, token, ops[0]);
    EvalConcat(doc, at, [token]);
    if Eval(doc, at + [token]).Some? {
      var container := Eval(doc, at).value;
      var without := RemoveChild(container, token).value;
      var removed := Put(doc, at, without);
      assert Apply(doc, ops[0]) == Some(removed);
      RemoveThenAdd(container, token, Arr([]));
      PutThenRead(doc, at, without, SetChild(container, token, Arr([])));
      ApplyAtContainer(removed, at, token, ops[1]);
      PutConcat(doc, at, [token], Arr([]));
      assert Put(container, [token], Arr([])) == SetChild(container, token, Arr([]));
      assert ops[1..] == [ops[1]] && ops[1..][1..] == [];
      var back := Put(doc, at + [token], Arr([]));
      assert Apply(removed, ops[1]) == Some(back);
      assert ApplyAll(removed, ops[1..]) == ApplyAll(back, ops[1..][1..]) == Some(back);
    }
  }

  /** Adding values at "-" below a list appends them in order and changes nothing else. */
  lemma {:induction false} AppendEffect(doc: Value, at: Tokens, path: string, before: seq<Value>, values: seq<Value>)
    requires Parse(path + "/-") == Some(at + ["-"])
    requires Eval(doc, at) == Some(Arr(before))
    ensures ApplyAll(doc, Append(path, values)) == Some(Put(doc, at, Arr(before + values)))
    decreases |values|
  {
    if values == [] {
      PutThenRead(doc, at, Null, Null);
      assert before + values == before;
    } else {
      var ops := Append(path, values);
      ApplyAtContainer(doc, at, "-", ops[0]);
      var items := before + [values[0]];
      var next := Put(doc, at, Arr(items));
      assert Apply(doc, ops[0]) == Some(next);
      PutThenRead(doc, at, Arr(items), Arr(before + values));
      AppendEffect(next, at, path, items, values[1..]);
      assert ops[1..] == Append(path, values[1..]);
      assert items + values[1..] == before + values;
    }
  }

  // ----- Effect on an object of lists

  predicate PlainNames(names: seq<string>) {
    forall k :: 0 <= k < |names| ==> Plain(names[k])
  }

  /** The members with an empty list at each of the names. */
  function Emptied(members: map<string, Value>, names: seq<string>): map<string, Value> {
    map name | name in members :: if name in names then Arr([]) else members[name]
  }

  /** The values of the entries with this name, in order. */
  function ValuesOf(entries: seq<Entry>, name: string): seq<Value> {
    if entries == [] then []
    else if entries[0].name == name then [entries[0].value] + ValuesOf(entries[1..], name)
    else ValuesOf(entries[1..], name)
  }

  /** The members with each list extended by the entries of its name. */
  function Extended(members: map<string, Value>, entries: seq<Entry>): map<string, Value> {
    map name | name in members ::
      if members[name].Arr? then Arr(members[name].items + ValuesOf(entries, name)) else members[name]
  }

  lemma {:induction false} PutMember(doc: Value, at: Tokens, members: map<string, Value>, name: string, value: Value)
    requires Eval(doc, at).Some? && name in members
    ensures var doc' := Put(doc, at, Obj(members));
      Eval(doc', at + [name]) == Some(members[name]) &&
      Put(doc', at + [name], value) == Put(doc, at, Obj(members[name := value]))
  {
    var doc' := Put(doc, at, Obj(members));
    PutThenRead(doc, at, Obj(members), Obj(members[name := value]));
    EvalConcat(doc', at, [name]);
    assert Eval(Obj(members), [name]) == Some(members[name]);
    PutConcat(doc', at, [name], value);
    assert Put(Obj(members), [name], value) == Obj(members[name := value]);
  }

  /** One more reset after some. */
  lemma {:induction false} ResetMemberStep(doc: Value, base: string, at: Tokens, members: map<string, Value>,
          names: seq<string>, name: string)
    requires Print(at) == base && Plain(name)
    requires Eval(doc, at).Some?
    ensures ApplyAll(Put(doc, at, Obj(Emptied(members, names))), Reset(base + "/" + name)) ==
            if name in members then Some(Put(doc, at, Obj(Emptied(members, names + [name])))) else None
  {
    var emptied := Emptied(members, names);
    var doc' := Put(doc, at, Obj(emptied));
    MemberPath(base, at, name);
    ResetEffect(doc', at, name, base + "/" + name);
    if name in members {
      PutMember(doc, at, emptied, name, Arr([]));
      assert emptied[name := Arr([])] == Emptied(members, names + [name]);
    } else {
      PutThenRead(doc, at, Obj(emptied), Null);
      EvalConcat(doc', at, [name]);
    }
  }

  /** Resetting any members of an object empties them all, or is refused when one is missing. */
  lemma {:induction false} ResetMembersExact(doc: Value, base: string, at: Tokens, members: map<string, Value>,
          names: seq<string>)
    requires Print(at) == base && PlainNames(names)
    requires Eval(doc, at) == Some(Obj(members))
    ensures ApplyAll(doc, ResetMembers(base, names)) ==
      if forall name :: name in names ==> name in members
      then Some(Put(doc, at, Obj(Emptied(members, names)))) else None
    decreases |names|
  {
    if names == [] {
      PutThenRead(doc, at, Null, Null);
      assert Emptied(members, names) == members;
    } else {
      var before, name := names[..|names| - 1], names[|names| - 1];
      assert names == before + [name];
      ResetMembersExact(doc, base, at, members, before);
      ApplyAllConcat(doc, ResetMembers(base, before), Reset(base + "/" + name));
      ResetMemberStep(doc, base, at, members, before, name);
    }
  }

  /** A reset is refused when its member is not there, whatever stands at the base. */
  lemma {:induction false} ResetMembersRefused(doc: Value, base: string, at: Tokens, names: seq<string>)
    requires Print(at) == base && |names| > 0 && Plain(names[0])
    requires Eval(doc, at + [names[0]]).None?
    ensures ApplyAll(doc, ResetMembers(base, names)) == None
    decreases |names|
  {
    var before, name := names[..|names| - 1], names[|names| - 1];
    ApplyAllConcat(doc, ResetMembers(base, before), Reset(base + "/" + name));
    if |names| == 1 {
      assert ResetMembers(base, before) == [];
      MemberPath(base, at, name);
      ResetEffect(doc, at, name, base + "/" + name);
    } else {
      ResetMembersRefused(doc, base, at, before);
    }
  }

  lemma {:induction false} ExtendedStep(members: map<string, Value>, entries: seq<Entry>)
    requires entries != [] && entries[0].name in members && members[entries[0].name].Arr?
    ensures var e := entries[0];
      Extended(members[e.name := Arr(members[e.name].items + [e.value])], entries[1..]) == Extended(members, entries)
  {
    var e := entries[0];
    var items := members[e.name].items;
    assert items + [e.value] + ValuesOf(entries[1..], e.name) == items + ValuesOf(entries, e.name);
  }

  lemma {:induction false} AddEntryExact(doc: Value, base: string, at: Tokens, members: map<string, Value>, e: Entry)
    requires Print(at) == base && Plain(e.name)
    requires Eval(doc, at) == Some(Obj(members))
    requires e.name in members && members[e.name].Arr?
    ensures var next := members[e.name := Arr(members[e.name].items + [e.value])];
      Apply(doc, Add(base + "/" + e.name + "/-", e.value)) == Some(Put(doc, at, Obj(next)))
  {
    var items := members[e.name].items;
    MemberPath(base, at, e.name);
    EvalConcat(doc, at, [e.name]);
    assert Eval(Obj(members), [e.name]) == Some(members[e.name]);
    ApplyAtContainer(doc, at + [e.name], "-", Add(base + "/" + e.name + "/-", e.value));
    PutThenRead(doc, at, Obj(members), Null);
    PutMember(doc, at, members, e.name, Arr(items + [e.value]));
  }

  /** Adding entries to an object of lists extends each list by its entries, in order. */
  lemma {:induction false} AddEntriesExact(doc: Value, base: string, at: Tokens, members: map<string, Value>,
          entries: seq<Entry>)
    requires Print(at) == base
    requires Eval(doc, at) == Some(Obj(members))
    requires forall k :: 0 <= k < |entries| ==>
      Plain(entries[k].name) && entries[k].name in members && members[entries[k].name].Arr?
    ensures ApplyAll(doc, AddEntries(base, entries)) == Some(Put(doc, at, Obj(Extended(members, entries))))
    decreases |entries|
  {
    if entries == [] {
      PutThenRead(doc, at, Null, Null);
      forall name | name in members && members[name].Arr?
        ensures members[name].items + ValuesOf(entries, name) == members[name].items {}
      assert Extended(members, entries) == members;
    } else {
      var e := entries[0];
      var next := members[e.name := Arr(members[e.name].items + [e.value])];
      AddEntryExact(doc, base, at, members, e);
      PutThenRead(doc, at, Obj(next), Obj(Extended(members, entries)));
      AddEntriesExact(Put(doc, at, Obj(next)), base, at, next, entries[1..]);
      assert AddEntries(base, entries)[1..] == AddEntries(base, entries[1..]);
      ExtendedStep(members, entries);
    }
  }
}
