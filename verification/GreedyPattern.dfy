/** The fragment of Python's regular expressions the environment parser uses: literals and
    greedy groups `(.*)`, matched from the start of a line by backtracking. */
module GreedyPattern {
  import opened Wrappers

  datatype Item = Lit(text: string) | Group

  type Pattern = seq<Item>

  /** `re.match`: the captured groups, or None. A pattern need not reach the end of the line. */
  function Match(p: Pattern, s: string): Option<seq<string>>
    decreases |p|, 0
  {
    if p == [] then Some([])
    else if p[0].Lit? then
      if p[0].text <= s then Match(p[1..], s[|p[0].text|..]) else None
    else Longest(p[1..], s, |s|)
  }

  /** A group tries the longest text first and gives back one character at a time. */
  function Longest(rest: Pattern, s: string, n: nat): Option<seq<string>>
    requires n <= |s|
    decreases |rest|, n + 1
  {
    var tail := Match(rest, s[n..]);
    if tail.Some? then Some([s[..n]] + tail.value)
    else if n == 0 then None
    else Longest(rest, s, n - 1)
  }

  predicate OccursAt(part: string, s: string, i: nat) {
    i + |part| <= |s| && s[i..i + |part|] == part
  }

  ghost predicate Contains(s: string, part: string) {
    exists i: nat :: OccursAt(part, s, i)
  }

  // ----- Groups

  /** A group takes the largest prefix after which the rest of the pattern matches. */
  lemma {:induction false} LongestExact(rest: Pattern, s: string, n: nat)
    requires n <= |s|
    ensures var r := Longest(rest, s, n);
      && (r.None? <==> forall i :: 0 <= i <= n ==> Match(rest, s[i..]).None?)
      && (r.Some? ==>
            && |r.value| > 0 && |r.value[0]| <= n && r.value[0] <= s
            && Match(rest, s[|r.value[0]|..]) == Some(r.value[1..])
            && forall i :: |r.value[0]| < i <= n ==> Match(rest, s[i..]).None?)
  {
    if Match(rest, s[n..]).None? && n > 0 {
      LongestExact(rest, s, n - 1);
    }
  }

  lemma {:induction false} LongestIs(rest: Pattern, s: string, at: nat, captures: seq<string>)
    requires at <= |s| && Match(rest, s[at..]) == Some(captures)
    requires forall i :: at < i <= |s| ==> Match(rest, s[i..]).None?
    ensures Longest(rest, s, |s|) == Some([s[..at]] + captures)
  {
    LongestExact(rest, s, |s|);
    var r := Longest(rest, s, |s|).value;
    assert Match(rest, s[|r[0]|..]).Some?;
    assert |r[0]| == at;
    assert r[0] == s[..at] && r == [r[0]] + r[1..];
  }

  lemma {:induction false} MatchLit(text: string, rest: Pattern, s: string)
    ensures Match([Lit(text)] + rest, s) == if text <= s then Match(rest, s[|text|..]) else None
  {
    assert ([Lit(text)] + rest)[1..] == rest;
  }

  lemma {:induction false} MatchGroup(rest: Pattern, s: string)
    ensures Match([Group] + rest, s) == Longest(rest, s, |s|)
  {
    assert ([Group] + rest)[1..] == rest;
  }

  lemma {:induction false} OccursIsPrefix(part: string, s: string, i: nat)
    requires i <= |s|
    ensures OccursAt(part, s, i) <==> part <= s[i..]
  {
    if part <= s[i..] {
      assert s[i..][..|part|] == part;
    }
  }

  lemma {:induction false} OccursInPrefix(part: string, s: string, end: nat, i: nat)
    requires end <= |s|
    ensures OccursAt(part, s[..end], i) <==> i + |part| <= end && OccursAt(part, s, i)
  {
    if i + |part| <= end {
      assert s[..end][i..i + |part|] == s[i..i + |part|];
    }
  }

  /** A closing group takes the whole rest. */
  lemma {:induction false} MatchRest(s: string)
    ensures Match([Group], s) == Some([s])
  {
    assert [Group][1..] == [] && s[|s|..] == [];
    assert Match([], s[|s|..]) == Some([]);
    assert s[..|s|] == s && [s] + [] == [s];
  }

  // ----- Splitting at the last separator

  function SplitPattern(sep: string): Pattern { [Group] + ([Lit(sep)] + [Group]) }

  lemma {:induction false} MatchSeparator(sep: string, s: string)
    ensures Match([Lit(sep)] + [Group], s) == if sep <= s then Some([s[|sep|..]]) else None
  {
    MatchLit(sep, [Group], s);
    if sep <= s {
      MatchRest(s[|sep|..]);
    }
  }

  /** `(.*)sep(.*)` splits at the last occurrence of the separator. */
  lemma {:induction false} SplitsAtLast(sep: string, s: string, at: nat)
    requires OccursAt(sep, s, at) && forall j: nat :: j > at ==> !OccursAt(sep, s, j)
    ensures Match(SplitPattern(sep), s) == Some([s[..at], s[at + |sep|..]])
  {
    var rest := [Lit(sep)] + [Group];
    MatchGroup(rest, s);
    OccursIsPrefix(sep, s, at);
    MatchSeparator(sep, s[at..]);
    assert s[at..][|sep|..] == s[at + |sep|..];
    forall i | at < i <= |s| ensures Match(rest, s[i..]).None? {
      OccursIsPrefix(sep, s, i);
      MatchSeparator(sep, s[i..]);
    }
    LongestIs(rest, s, at, [s[at + |sep|..]]);
    assert [s[..at]] + [s[at + |sep|..]] == [s[..at], s[at + |sep|..]];
  }

  lemma {:induction false} SplitsNothing(sep: string, s: string)
    requires !Contains(s, sep)
    ensures Match(SplitPattern(sep), s) == None
  {
    var rest := [Lit(sep)] + [Group];
    MatchGroup(rest, s);
    forall i | 0 <= i <= |s| ensures Match(rest, s[i..]).None? {
      OccursIsPrefix(sep, s, i);
      MatchSeparator(sep, s[i..]);
    }
    LongestExact(rest, s, |s|);
  }

  /** The last occurrence, when there is one. */
  lemma {:induction false} LastOccurrence(part: string, s: string, bound: nat, some: nat) returns (at: nat)
    requires OccursAt(part, s, some) && some <= bound
    requires forall j: nat :: j > bound ==> !OccursAt(part, s, j)
    ensures OccursAt(part, s, at) && forall j: nat :: j > at ==> !OccursAt(part, s, j)
    decreases bound
  {
    if OccursAt(part, s, bound) {
      at := bound;
    } else {
      at := LastOccurrence(part, s, bound - 1, some);
    }
  }

  /** Whatever it splits, it splits at a last occurrence. */
  lemma {:induction false} SplitExact(sep: string, s: string)
    ensures Match(SplitPattern(sep), s).Some? <==> Contains(s, sep)
    ensures Match(SplitPattern(sep), s).Some? ==>
      exists at: nat :: OccursAt(sep, s, at) && (forall j: nat :: j > at ==> !OccursAt(sep, s, j)) &&
        Match(SplitPattern(sep), s) == Some([s[..at], s[at + |sep|..]])
  {
    if Contains(s, sep) {
      var some: nat :| OccursAt(sep, s, some);
      var at := LastOccurrence(sep, s, |s|, some);
      SplitsAtLast(sep, s, at);
    } else {
      SplitsNothing(sep, s);
    }
  }

  // ----- Head, two separators, three groups

  function ReferencePattern(head: string, middle: string, sep: string): Pattern {
    [Lit(head)] + ([Group] + ([Lit(middle)] + SplitPattern(sep)))
  }

  lemma {:induction false} MatchMiddle(middle: string, sep: string, s: string)
    ensures Match([Lit(middle)] + SplitPattern(sep), s).Some? <==> middle <= s && Contains(s[|middle|..], sep)
  {
    MatchLit(middle, SplitPattern(sep), s);
    if middle <= s {
      SplitExact(sep, s[|middle|..]);
    }
  }

  lemma {:induction false} OccursInTail(part: string, s: string, from: nat, i: nat)
    requires from <= |s|
    ensures OccursAt(part, s[from..], i) <==> OccursAt(part, s, from + i)
  {
    if i + |part| <= |s| - from {
      assert s[from..][i..i + |part|] == s[from + i..from + i + |part|];
    }
  }

  /** The text of a reference line: head name middle object sep key. */
  function ReferenceText(head: string, name: string, middle: string, object_: string, sep: string,
          key: string): string {
    head + (name + (middle + (object_ + (sep + key))))
  }

  /** A later separator: one that begins after the first character of this one. */
  ghost predicate SeparatorAgain(sep: string, after: string)
    requires sep != []
  {
    Contains(sep[1..] + after, sep)
  }

  lemma {:induction false} LaterOccurrence(part: string, s: string, at: nat)
    requires part != [] && OccursAt(part, s, at)
    ensures SeparatorAgain(part, s[at + |part|..]) <==> exists j: nat :: j > at && OccursAt(part, s, j)
  {
    var after := s[at + |part|..];
    assert part[1..] + after == s[at + 1..] by {
      assert s[at..at + |part|][1..] == s[at + 1..at + |part|];
    }
    if j: nat :| j > at && OccursAt(part, s, j) {
      OccursInTail(part, s, at + 1, j - at - 1);
      assert OccursAt(part, part[1..] + after, j - at - 1);
    }
    var tail := part[1..] + after;
    if i: nat :| OccursAt(part, tail, i) {
      OccursInTail(part, s, at + 1, i);
      assert OccursAt(part, s, at + 1 + i);
    }
  }

  lemma {:induction false} TailLayout(object_: string, sep: string, key: string)
    ensures var tail := object_ + (sep + key);
      OccursAt(sep, tail, |object_|) && tail[|object_| + |sep|..] == key && tail[..|object_|] == object_
  {
    var tail := object_ + (sep + key);
    assert tail[|object_|..|object_| + |sep|] == sep;
  }

  /** Where the parts of a reference line lie. */
  lemma {:induction false} Layout(name: string, middle: string, object_: string, sep: string, key: string)
    ensures var body, tail := name + (middle + (object_ + (sep + key))), object_ + (sep + key);
      var end := |name| + |middle| + |object_|;
      && body[|name|..] == middle + tail && (middle + tail)[|middle|..] == tail
      && OccursAt(sep, body, end) && body[end + |sep|..] == key
      && OccursAt(sep, tail, |object_|) && tail[|object_| + |sep|..] == key && tail[..|object_|] == object_
      && OccursAt(middle, body[..end], |name|) && body[..end][|name| + |middle|..] == object_
  {
    var body := name + (middle + (object_ + (sep + key)));
    var end := |name| + |middle| + |object_|;
    assert body[..end] == name + middle + object_;
    assert body[end..] == sep + key;
    assert body[end..end + |sep|] == body[end..][..|sep|] == sep;
    assert (object_ + (sep + key))[|object_|..] == sep + key;
    assert (object_ + (sep + key))[|object_|..|object_| + |sep|] == sep;
  }

  /** With the last separator at `end` and the last middle before it at `at`, nothing of the
      pattern matches further right. */
  lemma {:induction false} StopsAt(body: string, middle: string, sep: string, at: nat, end: nat, i: nat)
    requires middle != [] && sep != [] && at < i <= |body|
    requires OccursAt(sep, body, end) && !SeparatorAgain(sep, body[end + |sep|..])
    requires OccursAt(middle, body[..end], at) && !SeparatorAgain(middle, body[..end][at + |middle|..])
    ensures Match([Lit(middle)] + SplitPattern(sep), body[i..]).None?
  {
    MatchMiddle(middle, sep, body[i..]);
    if middle <= body[i..] && Contains(body[i..][|middle|..], sep) {
      var q: nat :| OccursAt(sep, body[i..][|middle|..], q);
      assert body[i..][|middle|..] == body[i + |middle|..];
      OccursInTail(sep, body, i + |middle|, q);
      LaterOccurrence(sep, body, end);
      OccursIsPrefix(middle, body, i);
      OccursInPrefix(middle, body, end, i);
      LaterOccurrence(middle, body[..end], at);
    }
  }

  /** Another middle before the last separator gives the pattern a match further right. */
  lemma {:induction false} GoesOn(body: string, middle: string, sep: string, at: nat, end: nat) returns (i: nat)
    requires middle != [] && sep != [] && OccursAt(sep, body, end)
    requires OccursAt(middle, body[..end], at) && SeparatorAgain(middle, body[..end][at + |middle|..])
    ensures at < i <= |body| && Match([Lit(middle)] + SplitPattern(sep), body[i..]).Some?
  {
    LaterOccurrence(middle, body[..end], at);
    i :| i > at && OccursAt(middle, body[..end], i);
    OccursInPrefix(middle, body, end, i);
    OccursIsPrefix(middle, body, i);
    MatchMiddle(middle, sep, body[i..]);
    assert body[i..][|middle|..] == body[i + |middle|..];
    OccursInTail(sep, body, i + |middle|, end - i - |middle|);
    assert Contains(body[i..][|middle|..], sep);
  }

  lemma {:induction false} NameStopsHere(name: string, middle: string, object_: string, sep: string,
          key: string, i: nat)
    requires middle != [] && sep != [] && !SeparatorAgain(sep, key) && !SeparatorAgain(middle, object_)
    requires |name| < i <= |name + (middle + (object_ + (sep + key)))|
    ensures Match([Lit(middle)] + SplitPattern(sep), (name + (middle + (object_ + (sep + key))))[i..]).None?
  {
    Layout(name, middle, object_, sep, key);
    StopsAt(name + (middle + (object_ + (sep + key))), middle, sep, |name|, |name| + |middle| + |object_|, i);
  }

  lemma {:induction false} NameGoesOn(name: string, middle: string, object_: string, sep: string, key: string)
    requires middle != [] && sep != [] && SeparatorAgain(middle, object_)
    ensures var body := name + (middle + (object_ + (sep + key)));
      exists i :: |name| < i <= |body| && Match([Lit(middle)] + SplitPattern(sep), body[i..]).Some?
  {
    Layout(name, middle, object_, sep, key);
    var i := GoesOn(name + (middle + (object_ + (sep + key))), middle, sep, |name|, |name| + |middle| + |object_|);
  }

  lemma {:induction false} KeySplit(object_: string, sep: string, key: string)
    requires sep != []
    ensures Match(SplitPattern(sep), object_ + (sep + key)) == Some([object_, key]) <==> !SeparatorAgain(sep, key)
  {
    var tail := object_ + (sep + key);
    TailLayout(object_, sep, key);
    LaterOccurrence(sep, tail, |object_|);
    if SeparatorAgain(sep, key) {
      SplitExact(sep, tail);
    } else {
      SplitsAtLast(sep, tail, |object_|);
    }
  }

  /** A reference line is read back as it was written if and only if the first separator does
      not occur again in the object and the second not again in the key. */
  lemma {:induction false} ReferenceExact(head: string, name: string, middle: string, object_: string,
          sep: string, key: string)
    requires middle != [] && sep != []
    ensures Match(ReferencePattern(head, middle, sep), ReferenceText(head, name, middle, object_, sep, key)) ==
              Some([name, object_, key]) <==>
            !SeparatorAgain(middle, object_) && !SeparatorAgain(sep, key)
  {
    var rest := [Lit(middle)] + SplitPattern(sep);
    var tail := object_ + (sep + key);
    var body := name + (middle + tail);
    assert (head + body)[|head|..] == body;
    MatchLit(head, [Group] + rest, head + body);
    MatchGroup(rest, body);
    Layout(name, middle, object_, sep, key);
    MatchLit(middle, SplitPattern(sep), middle + tail);
    KeySplit(object_, sep, key);
    if !SeparatorAgain(middle, object_) && !SeparatorAgain(sep, key) {
      forall i | |name| < i <= |body| ensures Match(rest, body[i..]).None? {
        NameStopsHere(name, middle, object_, sep, key, i);
      }
      LongestIs(rest, body, |name|, [object_, key]);
      assert [body[..|name|]] + [object_, key] == [name, object_, key];
    } else if Longest(rest, body, |body|) == Some([name, object_, key]) {
      LongestExact(rest, body, |body|);
      assert [name, object_, key][1..] == [object_, key];
      NameGoesOn(name, middle, object_, sep, key);
    }
  }
}
