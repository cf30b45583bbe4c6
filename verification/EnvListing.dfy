/** Environment variables, the listing `oc set env --list` prints, and how
    `testsuite/openshift/env.py` reads it back. */
module EnvListing {
  import opened Wrappers
  import opened Text
  import opened GreedyPattern

  datatype Var = Plain(value: string) | FromSecret(object_: string,
          key: string) | FromConfigMap(object_: string, key: string)

  const HEAD := "# "
  const SECRET := " from secret "
  const CONFIGMAP := " from configmap "
  const KEY := ", key "

  function PlainPattern(): Pattern { SplitPattern("=") }
  function SecretPattern(): Pattern { ReferencePattern(HEAD, SECRET, KEY) }
  function ConfigMapPattern(): Pattern { ReferencePattern(HEAD, CONFIGMAP, KEY) }

  /** One line of the listing. */
  function PrintVar(name: string, v: Var): string {
    match v
    case Plain(value) => name + ("=" + value)
    case FromSecret(object_, key) => ReferenceText(HEAD, name, SECRET, object_, KEY, key)
    case FromConfigMap(object_, key) => ReferenceText(HEAD, name, CONFIGMAP, object_, KEY, key)
  }

  /** The kinds of variable are tried in this order; the first pattern that matches decides. */
  function ParseLine(line: string): Option<(string, Var)> {
    var plain := Match(PlainPattern(), line);
    if plain.Some? && |plain.value| == 2 then Some((plain.value[0], Plain(plain.value[1])))
    else
      var secret := Match(SecretPattern(), line);
      if secret.Some? && |secret.value| == 3 then Some((secret.value[0], FromSecret(secret.value[1], secret.value[2])))
      else
        var config := Match(ConfigMapPattern(), line);
        if config.Some? && |config.value| == 3 then Some((config.value[0], FromConfigMap(config.value[1], config.value[2])))
        else None
  }

  /** A text that reads as a reference: the first separator somewhere, and the second after it. */
  ghost predicate ReadsAs(middle: string, sep: string, body: string) {
    exists i: nat :: OccursAt(middle, body, i) && Contains(body[i + |middle|..], sep)
  }

  /** What follows the head of a configmap reference's line. */
  function ConfigMapBody(name: string, object_: string, key: string): string {
    name + (CONFIGMAP + (object_ + (KEY + key)))
  }

  /** The conditions under which a line means what it was printed for: a plain value holds no
      "="; in a reference the separators do not occur again, and one to a configmap does not read
      as one to a secret. */
  ghost predicate Readable(name: string, v: Var) {
    match v
    case Plain(value) => '=' !in value
    case FromSecret(object_, key) =>
      '=' !in PrintVar(name, v) && !SeparatorAgain(SECRET, object_) && !SeparatorAgain(KEY, key)
    case FromConfigMap(object_, key) =>
      '=' !in PrintVar(name, v) && !ReadsAs(SECRET, KEY, ConfigMapBody(name, object_, key)) &&
      !SeparatorAgain(CONFIGMAP, object_) && !SeparatorAgain(KEY, key)
  }

  lemma {:induction false} SixParts(head: string, name: string, middle: string, object_: string, sep: string, key: string)
    ensures ReferenceText(head, name, middle, object_, sep, key) == head + name + middle + object_ + sep + key
  {
  }

  /** The lines as `oc set env --list` prints them. */
  lemma {:induction false} LineTexts(name: string, text: string, object_: string, key: string)
    ensures PrintVar(name, Plain(text)) == name + "=" + text
    ensures PrintVar(name, FromSecret(object_, key)) == "# " + name + " from secret " + object_ + ", key " + key
    ensures PrintVar(name, FromConfigMap(object_, key)) == "# " + name + " from configmap " + object_ + ", key " + key
  {
    SixParts(HEAD, name, SECRET, object_, KEY, key);
    SixParts(HEAD, name, CONFIGMAP, object_, KEY, key);
  }

  lemma {:induction false} EqualsSign(s: string)
    ensures Contains(s, "=") <==> '=' in s
  {
    if '=' in s {
      var i :| 0 <= i < |s| && s[i] == '=';
      assert s[i..i + 1] == "=";
      assert OccursAt("=", s, i);
    }
    if i: nat :| OccursAt("=", s, i) {
      assert s[i..i + 1][0] == '=';
    }
  }

  lemma {:induction false} GroupsOfReference(head: string, middle: string, sep: string, s: string)
    ensures Match(ReferencePattern(head, middle, sep), s).Some? ==> |Match(ReferencePattern(head, middle, sep), s).value| == 3
  {
    var rest := [Lit(middle)] + SplitPattern(sep);
    MatchLit(head, [Group] + rest, s);
    if head <= s {
      var body := s[|head|..];
      MatchGroup(rest, body);
      LongestExact(rest, body, |body|);
      var r := Longest(rest, body, |body|);
      if r.Some? {
        var tail := body[|r.value[0]|..];
        MatchLit(middle, SplitPattern(sep), tail);
        SplitExact(sep, tail[|middle|..]);
      }
    }
  }

  lemma {:induction false} EqualsOccurs(sep: string, line: string, i: nat)
    requires sep == "="
    ensures OccursAt(sep, line, i) <==> i < |line| && line[i] == '='
  {
    if i < |line| {
      assert line[i..i + 1] == [line[i]];
    }
  }

  lemma {:induction false} NoLaterEquals(sep: string, line: string, at: nat)
    requires sep == "=" && OccursAt(sep, line, at) && forall j: nat :: j > at ==> !OccursAt(sep, line, j)
    ensures '=' !in line[at + 1..] && line == line[..at] + sep + line[at + 1..]
  {
    assert line == line[..at] + line[at..at + 1] + line[at + 1..];
    forall i | at < i < |line| ensures line[i] != '=' {
      EqualsOccurs(sep, line, i);
    }
  }

  /** Every line holding "=" is taken for a plain variable, split at its last "=". */
  lemma {:induction false} EqualsMeansPlain(line: string)
    ensures Match(PlainPattern(), line).Some? <==> '=' in line
    ensures '=' in line ==>
      && |Match(PlainPattern(), line).value| == 2 && ParseLine(line).Some? && ParseLine(line).value.1.Plain?
      && line == ParseLine(line).value.0 + "=" + ParseLine(line).value.1.value
      && '=' !in ParseLine(line).value.1.value
  {
    EqualsSign(line);
    SplitExact("=", line);
    if '=' in line {
      var sep := "=";
      var at: nat :| OccursAt(sep, line, at) && (forall j: nat :: j > at ==> !OccursAt(sep, line, j)) &&
        Match(SplitPattern(sep), line) == Some([line[..at], line[at + |sep|..]]);
      NoLaterEquals(sep, line, at);
    }
  }

  lemma {:induction false} MatchesFrom(middle: string, sep: string, body: string, i: nat)
    requires i <= |body|
    ensures Match([Lit(middle)] + SplitPattern(sep), body[i..]).Some? <==>
            OccursAt(middle, body, i) && Contains(body[i + |middle|..], sep)
  {
    MatchMiddle(middle, sep, body[i..]);
    OccursIsPrefix(middle, body, i);
    if OccursAt(middle, body, i) {
      assert body[i..][|middle|..] == body[i + |middle|..];
    }
  }

  lemma {:induction false} GroupMatches(rest: Pattern, body: string)
    ensures Match([Group] + rest, body).Some? <==> exists i :: 0 <= i <= |body| && Match(rest, body[i..]).Some?
  {
    MatchGroup(rest, body);
    LongestExact(rest, body, |body|);
  }

  /** A line with the head is taken for a reference exactly when the rest reads as one. */
  lemma {:induction false} ReferenceMatches(head: string, middle: string, sep: string, body: string)
    requires sep != []
    ensures Match(ReferencePattern(head, middle, sep), head + body).Some? <==> ReadsAs(middle, sep, body)
  {
    var rest := [Lit(middle)] + SplitPattern(sep);
    assert (head + body)[|head|..] == body;
    MatchLit(head, [Group] + rest, head + body);
    GroupMatches(rest, body);
    if i :| 0 <= i <= |body| && Match(rest, body[i..]).Some? {
      MatchesFrom(middle, sep, body, i);
    }
    if i: nat :| OccursAt(middle, body, i) && Contains(body[i + |middle|..], sep) {
      MatchesFrom(middle, sep, body, i);
    }
  }

  lemma {:induction false} ConfigMapLine(name: string, object_: string, key: string)
    ensures Match(SecretPattern(), PrintVar(name, FromConfigMap(object_, key))).None? <==>
            !ReadsAs(SECRET, KEY, ConfigMapBody(name, object_, key))
  {
    ReferenceMatches(HEAD, SECRET, KEY, ConfigMapBody(name, object_, key));
  }

  lemma {:induction false} ThreeGroups(m: Option<seq<string>>, a: string, b: string, c: string)
    ensures m == Some([a, b, c]) <==>
            m.Some? && |m.value| == 3 && m.value[0] == a && m.value[1] == b && m.value[2] == c
  {
    if m.Some? && |m.value| == 3 {
      assert m.value == [m.value[0], m.value[1], m.value[2]];
    }
  }

  /** Printing a variable and parsing the line gives it back if and only if it is readable:
      for a plain variable, exactly when its value holds no "=". */
  lemma {:induction false} LineRoundTrip(name: string, v: Var)
    ensures ParseLine(PrintVar(name, v)) == Some((name, v)) <==> Readable(name, v)
  {
    var line := PrintVar(name, v);
    EqualsMeansPlain(line);
    GroupsOfReference(HEAD, SECRET, KEY, line);
    GroupsOfReference(HEAD, CONFIGMAP, KEY, line);
    match v
    case Plain(value) =>
      KeySplit(name, "=", value);
      assert "="[1..] + value == value;
      EqualsSign(value);
      assert line[|name|] == '=';
    case FromSecret(object_, key) =>
      ReferenceExact(HEAD, name, SECRET, object_, KEY, key);
      ThreeGroups(Match(SecretPattern(), line), name, object_, key);
    case FromConfigMap(object_, key) =>
      ConfigMapLine(name, object_, key);
      ReferenceExact(HEAD, name, CONFIGMAP, object_, KEY, key);
      ThreeGroups(Match(ConfigMapPattern(), line), name, object_, key);
  }

  // ----- The whole listing

  /** A container's variables, in order. */
  type Remote = seq<(string, Var)>

  function Lines(vars: Remote): seq<string> {
    seq(|vars|, i requires 0 <= i < |vars| => PrintVar(vars[i].0, vars[i].1))
  }

  /** A comment naming the container, one line per variable, and a final newline. */
  function Listing(header: string, vars: Remote): string {
    Join([header] + Lines(vars) + [""], '\n')
  }

  /** `refresh`: later lines of the same name win, lines that match nothing are skipped. */
  function Collect(lines: seq<string>): map<string, Var> {
    if lines == [] then map[]
    else
      var before, parsed := Collect(lines[..|lines| - 1]), ParseLine(lines[|lines| - 1]);
      if parsed.None? then before else before[parsed.value.0 := parsed.value.1]
  }

  function Parsed(header: string, vars: Remote): map<string, Var> {
    Collect(Split(Listing(header, vars), '\n'))
  }

  ghost predicate Distinct(vars: Remote) {
    forall i, j :: 0 <= i < j < |vars| ==> vars[i].0 != vars[j].0
  }

  /** Names as Kubernetes accepts them, and no text that breaks a line. */
  ghost predicate OneLine(name: string, v: Var) {
    '=' !in name && '\n' !in PrintVar(name, v)
  }

  ghost predicate WellFormed(header: string, vars: Remote) {
    && '\n' !in header && ParseLine(header).None?
    && Distinct(vars) && forall i :: 0 <= i < |vars| ==> OneLine(vars[i].0, vars[i].1)
  }

  /** The dictionary a container's variables are. */
  function MapOf(vars: Remote): map<string, Var> {
    if vars == [] then map[]
    else MapOf(vars[..|vars| - 1])[vars[|vars| - 1].0 := vars[|vars| - 1].1]
  }

  lemma {:induction false} MapOfExact(vars: Remote, name: string)
    requires Distinct(vars)
    ensures name in MapOf(vars) <==> exists i :: 0 <= i < |vars| && vars[i].0 == name
    ensures forall i :: 0 <= i < |vars| && vars[i].0 == name ==> name in MapOf(vars) && MapOf(vars)[name] == vars[i].1
    decreases |vars|
  {
    if vars != [] {
      var before := vars[..|vars| - 1];
      MapOfExact(before, name);
      assert forall i :: 0 <= i < |before| ==> before[i] == vars[i];
    }
  }

  lemma {:induction false} EmptyLine()
    ensures ParseLine("") == None
  {
    EqualsMeansPlain("");
  }

  lemma {:induction false} LineClean(header: string, vars: Remote, k: nat)
    requires WellFormed(header, vars) && k < |vars|
    ensures '\n' !in Lines(vars)[k]
  {
    assert OneLine(vars[k].0, vars[k].1);
  }

  lemma {:induction false} Between(first: string, middle: seq<string>, last: string, c: char)
    requires c !in first && c !in last && forall k :: 0 <= k < |middle| ==> c !in middle[k]
    ensures var all := [first] + middle + [last]; forall k :: 0 <= k < |all| ==> c !in all[k]
  {
    var all := [first] + middle + [last];
    forall k | 0 <= k < |all| ensures c !in all[k] {
      if 0 < k <= |middle| {
        assert all[k] == middle[k - 1];
      }
    }
  }

  lemma {:induction false} CollectSkips(lines: seq<string>, last: string)
    requires ParseLine(last).None?
    ensures Collect(lines + [last]) == Collect(lines)
  {
    assert (lines + [last])[..|lines|] == lines;
  }

  /** The lines that come back from splitting the listing are the ones it was joined from. */
  lemma {:induction false} ListingLines(header: string, vars: Remote)
    requires WellFormed(header, vars)
    ensures Parsed(header, vars) == Collect([header] + Lines(vars))
  {
    forall k | 0 <= k < |Lines(vars)| ensures '\n' !in Lines(vars)[k] {
      LineClean(header, vars, k);
    }
    Between(header, Lines(vars), "", '\n');
    SplitJoin([header] + Lines(vars) + [""], '\n');
    EmptyLine();
    CollectSkips([header] + Lines(vars), "");
  }

  lemma {:induction false} EqualsAt(a: string, b: string, at: nat)
    requires '=' !in b && at < |a + "=" + b| && (a + "=" + b)[at] == '='
    ensures at <= |a|
  {
    assert forall i :: 0 <= i < |b| ==> (a + "=" + b)[|a| + 1 + i] == b[i];
  }

  /** A plain variable whose value holds "=" comes back under a name that holds "=". */
  lemma {:induction false} UnreadablePlain(name: string, v: Var)
    requires v.Plain? && !Readable(name, v)
    ensures ParseLine(PrintVar(name, v)).Some? && '=' in ParseLine(PrintVar(name, v)).value.0
  {
    var line := PrintVar(name, v);
    assert line[|name|] == '=';
    EqualsMeansPlain(line);
    var got := ParseLine(line).value;
    var k :| 0 <= k < |v.value| && v.value[k] == '=';
    assert line[|name| + 1 + k] == '=';
    EqualsAt(got.0, got.1.value, |name| + 1 + k);
    assert got.0[|name|] == line[|name|];
  }

  /** Plain or readable: whatever a container may hold. */
  ghost predicate Listed(name: string, v: Var) {
    v.Plain? || Readable(name, v)
  }

  /** A line defines a name without "=" only when it was printed for it and is readable. */
  lemma {:induction false} LineDefines(n: string, v: Var, name: string)
    requires Listed(n, v) && '=' !in name
    ensures ParseLine(PrintVar(n, v)).Some?
    ensures ParseLine(PrintVar(n, v)).value.0 == name <==> n == name && Readable(n, v)
    ensures n == name && Readable(n, v) ==> ParseLine(PrintVar(n, v)).value.1 == v
  {
    LineRoundTrip(n, v);
    if !Readable(n, v) {
      UnreadablePlain(n, v);
    }
  }

  ghost predicate AllListed(vars: Remote) {
    forall i :: 0 <= i < |vars| ==> Listed(vars[i].0, vars[i].1)
  }

  lemma {:induction false} CollectStep(header: string, vars: Remote)
    requires vars != []
    ensures var last := vars[|vars| - 1];
      var before, parsed := Collect([header] + Lines(vars[..|vars| - 1])), ParseLine(PrintVar(last.0, last.1));
      Collect([header] + Lines(vars)) == if parsed.None? then before else before[parsed.value.0 := parsed.value.1]
  {
    var lines := [header] + Lines(vars);
    assert lines[..|lines| - 1] == [header] + Lines(vars[..|vars| - 1]);
  }

  lemma {:induction false} CollectHeader(header: string)
    requires ParseLine(header).None?
    ensures Collect([header] + Lines([])) == map[]
  {
    assert [header] + Lines([]) == [header] && [header][..0] == [];
  }

  /** A step from one dictionary to the next, as seen under one name. */
  predicate Defines(before: map<string, Var>, after: map<string, Var>, n: string, v: Var, readable: bool,
          name: string) {
    if n == name && readable then name in after && after[name] == v
    else (name in after <==> name in before) && (name in before ==> after[name] == before[name])
  }

  /** What one variable's line changes for a name without "=". */
  lemma {:induction false} CollectLast(header: string, vars: Remote, name: string)
    requires vars != [] && Listed(vars[|vars| - 1].0, vars[|vars| - 1].1) && '=' !in name
    ensures var (n, v) := vars[|vars| - 1];
      Defines(Collect([header] + Lines(vars[..|vars| - 1])), Collect([header] + Lines(vars)), n, v, Readable(n, v), name)
  {
    var (n, v) := vars[|vars| - 1];
    CollectStep(header, vars);
    LineDefines(n, v, name);
  }

  lemma {:induction false} LastDefinition(maps: seq<map<string, Var>>, vars: Remote, readable: seq<bool>,
          name: string, at: int)
    requires |maps| == |vars| + 1 && |readable| == |vars| && maps[0] == map[] && Distinct(vars)
    requires forall k :: 0 <= k < |vars| ==> Defines(maps[k], maps[k + 1], vars[k].0, vars[k].1, readable[k], name)
    requires 0 <= at < |vars| ==> vars[at].0 == name
    requires !(0 <= at < |vars|) ==> forall i :: 0 <= i < |vars| ==> vars[i].0 != name
    ensures var m := maps[|vars|];
      if 0 <= at < |vars| && readable[at] then name in m && m[name] == vars[at].1 else name !in m
    decreases |vars|
  {
    if vars != [] {
      var n := |vars| - 1;
      LastDefinition(maps[..n + 1], vars[..n], readable[..n], name, if at < n then at else -1);
      assert Defines(maps[n], maps[n + 1], vars[n].0, vars[n].1, readable[n], name);
    }
  }

  lemma {:induction false} CollectPrefix(header: string, vars: Remote, name: string, k: nat)
    requires AllListed(vars) && '=' !in name && k < |vars|
    ensures Defines(Collect([header] + Lines(vars[..k])), Collect([header] + Lines(vars[..k + 1])), vars[k].0, vars[k].1,
                    Readable(vars[k].0, vars[k].1), name)
  {
    assert vars[..k + 1][..k] == vars[..k];
    CollectLast(header, vars[..k + 1], name);
  }

  /** What the parsed listing says about one name: the variable, if it has a readable one. */
  lemma {:induction false} CollectExact(header: string, vars: Remote, name: string, at: int)
    requires ParseLine(header).None? && Distinct(vars) && AllListed(vars) && '=' !in name
    requires 0 <= at < |vars| ==> vars[at].0 == name
    requires !(0 <= at < |vars|) ==> forall i :: 0 <= i < |vars| ==> vars[i].0 != name
    ensures var m := Collect([header] + Lines(vars));
      if 0 <= at < |vars| && Readable(name, vars[at].1) then name in m && m[name] == vars[at].1
      else name !in m
  {
    var maps := seq(|vars| + 1, k requires 0 <= k <= |vars| => Collect([header] + Lines(vars[..k])));
    ghost var readable := seq(|vars|, k requires 0 <= k < |vars| => Readable(vars[k].0, vars[k].1));
    CollectHeader(header);
    assert vars[..0] == [] && vars[..|vars|] == vars;
    forall k | 0 <= k < |vars|
      ensures Defines(maps[k], maps[k + 1], vars[k].0, vars[k].1, readable[k], name)
    {
      CollectPrefix(header, vars, name, k);
    }
    LastDefinition(maps, vars, readable, name, at);
  }

  /** Printing any readable variables as a listing and parsing it gives the variables back. */
  lemma {:induction false} ListingRoundTrip(header: string, vars: Remote)
    requires WellFormed(header, vars)
    requires forall i :: 0 <= i < |vars| ==> Readable(vars[i].0, vars[i].1)
    ensures Parsed(header, vars) == MapOf(vars)
  {
    ListingLines(header, vars);
    CollectMap(header, vars);
  }

  lemma {:induction false} CollectMap(header: string, vars: Remote)
    requires ParseLine(header).None?
    requires forall i :: 0 <= i < |vars| ==> Readable(vars[i].0, vars[i].1)
    ensures Collect([header] + Lines(vars)) == MapOf(vars)
    decreases |vars|
  {
    if vars == [] {
      CollectHeader(header);
    } else {
      var before, last := vars[..|vars| - 1], vars[|vars| - 1];
      CollectMap(header, before);
      CollectStep(header, vars);
      LineRoundTrip(last.0, last.1);
    }
  }
}
