/** Slash-separated paths into a nested custom resource: `_locator`, `get_path` and `set_path`
    of `testsuite/openshift/crd/apimanager.py`. */
module ModelPaths {
  import opened Wrappers
  import opened Text
  import opened Json

  /** set_path's ValueError, and indexing what is no mapping. */
  datatype PathError = PathMissing | NotAMapping

  /** The object holding the last fragment. None is the client library's `Missing`, which
      every absent member is and which every member of `Missing` is again. */
  function Locate(doc: Value, fragments: seq<string>): Result<Option<Value>, PathError>
    decreases |fragments|
  {
    if fragments == [] then Ok(Some(doc))
    else if !doc.Obj? then Err(NotAMapping)
    else if fragments[0] !in doc.members then Ok(None)
    else Locate(doc.members[fragments[0]], fragments[1..])
  }

  function Read(doc: Value, fragments: seq<string>): Result<Option<Value>, PathError>
    requires fragments != []
  {
    var n := |fragments| - 1;
    var field := Locate(doc, fragments[..n]);
    if field.Err? then Err(field.error)
    else if field.value.None? then Ok(None)
    else if !field.value.value.Obj? then Err(NotAMapping)
    else
      var members := field.value.value.members;
      if fragments[n] in members then Ok(Some(members[fragments[n]])) else Ok(None)
  }

  /** The document after an assignment to the last fragment. */
  function Assign(doc: Value, fragments: seq<string>, value: Value): Result<Value, PathError>
    requires fragments != []
    decreases |fragments|
  {
    if !doc.Obj? then Err(NotAMapping)
    else if |fragments| == 1 then Ok(Obj(doc.members[fragments[0] := value]))
    else if fragments[0] !in doc.members then Err(PathMissing)
    else
      var inner := Assign(doc.members[fragments[0]], fragments[1..], value);
      if inner.Err? then inner else Ok(Obj(doc.members[fragments[0] := inner.value]))
  }

  function GetPath(doc: Value, path: string): Result<Option<Value>, PathError> {
    Read(doc, Split(path, '/'))
  }

  function SetPath(doc: Value, path: string, value: Value): Result<Value, PathError> {
    Assign(doc, Split(path, '/'), value)
  }

  // ----- Laws, on fragments

  lemma {:induction false} ReadCons(doc: Value, fragments: seq<string>)
    requires |fragments| > 1
    ensures Read(doc, fragments) ==
            if !doc.Obj? then Err(NotAMapping)
            else if fragments[0] !in doc.members then Ok(None)
            else Read(doc.members[fragments[0]], fragments[1..])
  {
    var n := |fragments| - 1;
    assert fragments[..n][1..] == fragments[1..][..n - 1];
    assert fragments[..n][0] == fragments[0];
  }

  lemma {:induction false} ReadOne(doc: Value, fragment: string)
    ensures Read(doc, [fragment]) ==
            if !doc.Obj? then Err(NotAMapping)
            else Ok(if fragment in doc.members then Some(doc.members[fragment]) else None)
  {
    assert [fragment][..0] == [];
  }

  /** An assignment is refused exactly when the parent is missing or no mapping. */
  lemma {:induction false} AssignExact(doc: Value, fragments: seq<string>, value: Value)
    requires fragments != []
    ensures var field := Locate(doc, fragments[..|fragments| - 1]);
      Assign(doc, fragments, value).Ok? <==> field.Ok? && field.value.Some? && field.value.value.Obj?
    ensures Assign(doc, fragments, value).Err? ==>
      Assign(doc, fragments, value).error ==
      if Locate(doc, fragments[..|fragments| - 1]) == Ok(None) then PathMissing else NotAMapping
    decreases |fragments|
  {
    var n := |fragments| - 1;
    if n > 0 {
      assert fragments[..n][1..] == fragments[1..][..n - 1];
      if doc.Obj? && fragments[0] in doc.members {
        AssignExact(doc.members[fragments[0]], fragments[1..], value);
      }
    }
  }

  lemma {:induction false} AssignThenRead(doc: Value, fragments: seq<string>, value: Value, again: Value)
    requires fragments != [] && Assign(doc, fragments, value).Ok?
    ensures var doc' := Assign(doc, fragments, value).value;
      && Read(doc', fragments) == Ok(Some(value))
      && Assign(doc', fragments, again) == Assign(doc, fragments, again)
      && Assign(doc, fragments, again).Ok?
      && (Read(doc, fragments) == Ok(Some(again)) ==> Assign(doc', fragments, again) == Ok(doc))
    decreases |fragments|
  {
    var doc' := Assign(doc, fragments, value).value;
    if |fragments| == 1 {
      var f := fragments[0];
      assert fragments == [f];
      ReadOne(doc', f);
      ReadOne(doc, f);
      assert doc.members[f := value][f := again] == doc.members[f := again];
      if Read(doc, fragments) == Ok(Some(again)) {
        assert doc.members[f := again] == doc.members;
      }
    } else {
      ReadCons(doc', fragments);
      ReadCons(doc, fragments);
      AssignThenRead(doc.members[fragments[0]], fragments[1..], value, again);
      var inner := Assign(doc.members[fragments[0]], fragments[1..], again).value;
      assert doc'.members[fragments[0] := inner] == doc.members[fragments[0] := inner];
      if Read(doc, fragments) == Ok(Some(again)) {
        assert doc'.members[fragments[0] := doc.members[fragments[0]]] == doc.members;
      }
    }
  }

  predicate Prefixing(a: seq<string>, b: seq<string>) {
    a <= b || b <= a
  }

  /** Reading and assigning elsewhere are not affected, where neither path prefixes the other. */
  lemma {:induction false} AssignElsewhere(doc: Value, at: seq<string>, value: Value, other: seq<string>, v: Value)
    requires at != [] && other != [] && !Prefixing(at, other) && Assign(doc, at, value).Ok?
    ensures var doc' := Assign(doc, at, value).value;
      Read(doc', other) == Read(doc, other) && (Assign(doc', other, v).Ok? <==> Assign(doc, other, v).Ok?)
    decreases |at|
  {
    var doc' := Assign(doc, at, value).value;
    if other[0] == at[0] {
      assert at == [at[0]] + at[1..] && other == [other[0]] + other[1..];
      assert |at| > 1 && |other| > 1 && !Prefixing(at[1..], other[1..]);
      ReadCons(doc', other);
      ReadCons(doc, other);
      AssignElsewhere(doc.members[at[0]], at[1..], value, other[1..], v);
    } else if |other| == 1 {
      assert other == [other[0]];
      ReadOne(doc', other[0]);
      ReadOne(doc, other[0]);
    } else {
      ReadCons(doc', other);
      ReadCons(doc, other);
    }
  }

  // ----- The same, on paths

  /** Getting after setting returns the value, the last set wins, and putting the old value
      back restores the whole document. */
  lemma {:induction false} SetThenGet(doc: Value, path: string, value: Value, again: Value)
    requires SetPath(doc, path, value).Ok?
    ensures var doc' := SetPath(doc, path, value).value;
      && GetPath(doc', path) == Ok(Some(value))
      && SetPath(doc', path, again) == SetPath(doc, path, again)
      && SetPath(doc, path, again).Ok?
      && (GetPath(doc, path) == Ok(Some(again)) ==> SetPath(doc', path, again) == Ok(doc))
  {
    AssignThenRead(doc, Split(path, '/'), value, again);
  }

  predicate Apart(a: string, b: string) {
    !Prefixing(Split(a, '/'), Split(b, '/'))
  }

  /** Paths that do not prefix one another do not interfere. */
  lemma {:induction false} SetElsewhere(doc: Value, path: string, value: Value, other: string, v: Value)
    requires SetPath(doc, path, value).Ok? && Apart(path, other)
    ensures var doc' := SetPath(doc, path, value).value;
      GetPath(doc', other) == GetPath(doc, other) && (SetPath(doc', other, v).Ok? <==> SetPath(doc, other, v).Ok?)
  {
    AssignElsewhere(doc, Split(path, '/'), value, Split(other, '/'), v);
  }
}
