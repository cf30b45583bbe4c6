/** JSON Patch, RFC 6902, with the two operations the scripts use ("add" of section 4.1
    and "remove" of section 4.2), over the pointer evaluation of section 4 of RFC 6901. */
module JsonPatch {
  import opened Wrappers
  import opened Json
  import opened JsonPointer

  // ----- Pointer evaluation

  predicate IsDigits(token: string) {
    forall k :: 0 <= k < |token| ==> '0' <= token[k] <= '9'
  }

  function Decimal(digits: string): nat
    requires IsDigits(digits)
  {
    if digits == [] then 0
    else 10 * Decimal(digits[..|digits| - 1]) + (digits[|digits| - 1] as int - '0' as int)
  }

  /** An array index is "0" or has no leading zero. "-" is not an index of an element. */
  function ArrayIndex(token: string): Option<nat> {
    if token != [] && IsDigits(token) && (token[0] != '0' || |token| == 1) then Some(Decimal(token))
    else None
  }

  function Child(doc: Value, token: string): Option<Value> {
    match doc
    case Obj(members) => if token in members then Some(members[token]) else None
    case Arr(items) =>
      var index := ArrayIndex(token);
      if index.Some? && index.value < |items| then Some(items[index.value]) else None
    case _ => None
  }

  function SetChild(doc: Value, token: string, child: Value): Value
    requires Child(doc, token).Some?
  {
    match doc
    case Obj(members) => Obj(members[token := child])
    case Arr(items) => Arr(items[ArrayIndex(token).value := child])
  }

  /** The value a pointer references, if any. */
  function Eval(doc: Value, at: Tokens): Option<Value>
    decreases |at|
  {
    if at == [] then Some(doc)
    else
      var child := Child(doc, at[0]);
      if child.None? then None else Eval(child.value, at[1..])
  }

  /** The document with the value at an existing location replaced, and nothing else. */
  function Put(doc: Value, at: Tokens, value: Value): Value
    requires Eval(doc, at).Some?
    decreases |at|
  {
    if at == [] then value
    else SetChild(doc, at[0], Put(Child(doc, at[0]).value, at[1..], value))
  }

  // ----- Operations

  datatype Operation = Add(path: string, value: Value) | Remove(path: string)

  /** Section 4.1 for a location in this container. */
  function AddChild(container: Value, token: string, value: Value): Option<Value> {
    match container
    case Obj(members) => Some(Obj(members[token := value]))
    case Arr(items) =>
      var index := ArrayIndex(token);
      if token == "-" then Some(Arr(items + [value]))
      else if index.Some? && index.value <= |items| then
        Some(Arr(items[..index.value] + [value] + items[index.value..]))
      else None
    case _ => None
  }

  /** Section 4.2 for a location in this container: it must exist. */
  function RemoveChild(container: Value, token: string): Option<Value> {
    if Child(container, token).None? then None
    else match container
      case Obj(members) => Some(Obj(members - {token}))
      case Arr(items) =>
        var i := ArrayIndex(token).value;
        Some(Arr(items[..i] + items[i + 1..]))
  }

  function ApplyAt(doc: Value, at: Tokens, op: Operation): Option<Value>
    decreases |at|
  {
    if at == [] then if op.Add? then Some(op.value) else None
    else if |at| == 1 then
      if op.Add? then AddChild(doc, at[0], op.value) else RemoveChild(doc, at[0])
    else
      var child := Child(doc, at[0]);
      if child.None? then None
      else
        var changed := ApplyAt(child.value, at[1..], op);
        if changed.None? then None else Some(SetChild(doc, at[0], changed.value))
  }

  function Apply(doc: Value, op: Operation): Option<Value> {
    var at := Parse(op.path);
    if at.None? then None else ApplyAt(doc, at.value, op)
  }

  /** Section 3: operations apply in order. Section 5: the first failure fails the whole patch. */
  function ApplyAll(doc: Value, ops: seq<Operation>): Option<Value>
    decreases |ops|
  {
    if ops == [] then Some(doc)
    else
      var next := Apply(doc, ops[0]);
      if next.None? then None else ApplyAll(next.value, ops[1..])
  }

  // ----- Laws of Eval and Put

  lemma {:induction false} EvalConcat(doc: Value, at: Tokens, more: Tokens)
    ensures Eval(doc, at + more) ==
            if Eval(doc, at).None? then None else Eval(Eval(doc, at).value, more)
  {
    if at == [] {
      assert at + more == more;
    } else {
      assert (at + more)[1..] == at[1..] + more;
      if Child(doc, at[0]).Some? {
        EvalConcat(Child(doc, at[0]).value, at[1..], more);
      }
    }
  }

  lemma {:induction false} PutConcat(doc: Value, at: Tokens, more: Tokens, value: Value)
    requires Eval(doc, at + more).Some?
    ensures Eval(doc, at).Some? && Eval(Eval(doc, at).value, more).Some?
    ensures Put(doc, at + more, value) == Put(doc, at, Put(Eval(doc, at).value, more, value))
  {
    EvalConcat(doc, at, more);
    if at == [] {
      assert at + more == more;
    } else {
      assert (at + more)[1..] == at[1..] + more;
      PutConcat(Child(doc, at[0]).value, at[1..], more, value);
    }
  }

  /** What was put is read back, and a second put at the place overrides the first. */
  lemma {:induction false} PutThenRead(doc: Value, at: Tokens, value: Value, again: Value)
    requires Eval(doc, at).Some?
    ensures Eval(Put(doc, at, value), at) == Some(value)
    ensures Put(Put(doc, at, value), at, again) == Put(doc, at, again)
    ensures Put(doc, at, Eval(doc, at).value) == doc
  {
    if at != [] {
      PutThenRead(Child(doc, at[0]).value, at[1..], value, again);
    }
  }

  lemma {:induction false} DecimalPositive(digits: string)
    requires digits != [] && IsDigits(digits) && digits[0] != '0'
    ensures Decimal(digits) > 0
  {
    if |digits| > 1 {
      DecimalPositive(digits[..|digits| - 1]);
    } else {
      assert digits[..0] == [];
    }
  }

  lemma {:induction false} DecimalInjective(a: string, b: string)
    requires IsDigits(a) && IsDigits(b)
    requires a != [] ==> a[0] != '0'
    requires b != [] ==> b[0] != '0'
    requires Decimal(a) == Decimal(b)
    ensures a == b
  {
    if a == [] {
      if b != [] { DecimalPositive(b); }
    } else if b == [] {
      DecimalPositive(a);
    } else {
      var a', b' := a[..|a| - 1], b[..|b| - 1];
      DecimalInjective(a', b');
      assert a == a' + [a[|a| - 1]] && b == b' + [b[|b| - 1]];
    }
  }

  /** Two tokens never name the same array element. */
  lemma {:induction false} ArrayIndexInjective(a: string, b: string)
    requires ArrayIndex(a).Some? && ArrayIndex(a) == ArrayIndex(b)
    ensures a == b
  {
    if a[0] == '0' {
      assert a == "0" && a[..|a| - 1] == [] && Decimal(a) == 0;
      if b[0] != '0' { DecimalPositive(b); } else { assert b == "0"; }
    } else if b[0] == '0' {
      assert b == "0" && b[..|b| - 1] == [] && Decimal(b) == 0;
      DecimalPositive(a);
    } else {
      DecimalInjective(a, b);
    }
  }

  predicate Comparable(a: Tokens, b: Tokens) {
    a <= b || b <= a
  }

  /** A put leaves every location alone that is neither above nor below it. */
  lemma {:induction false} PutFrame(doc: Value, at: Tokens, value: Value, other: Tokens)
    requires Eval(doc, at).Some?
    requires !Comparable(at, other)
    ensures Eval(Put(doc, at, value), other) == Eval(doc, other)
  {
    var child := Child(doc, at[0]).value;
    if other[0] == at[0] {
      assert !Comparable(at[1..], other[1..]) by {
        assert at == [at[0]] + at[1..] && other == [other[0]] + other[1..];
      }
      PutFrame(child, at[1..], value, other[1..]);
    } else if doc.Arr? && ArrayIndex(other[0]) == ArrayIndex(at[0]) {
      ArrayIndexInjective(other[0], at[0]);
    }
  }

  // ----- Operations seen from their container

  /** An operation below a container changes that container and nothing else; it fails
      when the container is absent or refuses the change. */
  lemma {:induction false} ApplyAtContainer(doc: Value, at: Tokens, token: string, op: Operation)
    ensures var container := Eval(doc, at);
      ApplyAt(doc, at + [token], op) ==
      if container.None? then None
      else
        var changed := if op.Add? then AddChild(container.value, token, op.value)
                       else RemoveChild(container.value, token);
        if changed.None? then None else Some(Put(doc, at, changed.value))
  {
    if at == [] {
      assert at + [token] == [token];
    } else {
      assert (at + [token])[1..] == at[1..] + [token];
      if Child(doc, at[0]).Some? {
        ApplyAtContainer(Child(doc, at[0]).value, at[1..], token, op);
      }
    }
  }

  lemma {:induction false} ApplyAllConcat(doc: Value, first: seq<Operation>, second: seq<Operation>)
    ensures ApplyAll(doc, first + second) ==
            if ApplyAll(doc, first).None? then None else ApplyAll(ApplyAll(doc, first).value, second)
    decreases |first|
  {
    if first == [] {
      assert first + second == second;
    } else {
      assert (first + second)[1..] == first[1..] + second;
      if Apply(doc, first[0]).Some? {
        ApplyAllConcat(Apply(doc, first[0]).value, first[1..], second);
      }
    }
  }
}
