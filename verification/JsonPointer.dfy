/** JSON Pointer, RFC 6901: the textual form of the paths the scripts are written in.
    A parsed pointer is the sequence of its unescaped reference tokens. */
module JsonPointer {
  import opened Wrappers
  import opened Text

  type Tokens = seq<string>

  /** Section 3: '~' and '/' are written "~0" and "~1". */
  function Escape(token: string): string {
    if token == [] then []
    else (if token[0] == '~' then "~0" else if token[0] == '/' then "~1" else [token[0]]) + Escape(token[1..])
  }

  /** A token that reads the same escaped and unescaped. */
  predicate Plain(token: string) {
    '~' !in token && '/' !in token
  }

  /** Section 4. A '~' that starts no escape is an error (section 3). */
  function Unescape(text: string): Option<string> {
    if text == [] then Some([])
    else if text[0] != '~' then Prepend(text[0], Unescape(text[1..]))
    else if |text| < 2 then None
    else if text[1] == '0' then Prepend('~', Unescape(text[2..]))
    else if text[1] == '1' then Prepend('/', Unescape(text[2..]))
    else None
  }

  function Prepend(c: char, rest: Option<string>): Option<string> {
    if rest.Some? then Some([c] + rest.value) else None
  }

  function UnescapeAll(parts: seq<string>): Option<Tokens> {
    if parts == [] then Some([])
    else
      var first, rest := Unescape(parts[0]), UnescapeAll(parts[1..]);
      if first.Some? && rest.Some? then Some([first.value] + rest.value) else None
  }

  /** Section 3: a pointer is empty or begins with '/'. */
  function Parse(text: string): Option<Tokens> {
    if text == [] then Some([])
    else if text[0] != '/' then None
    else UnescapeAll(Split(text[1..], '/'))
  }

  function Print(tokens: Tokens): string {
    if tokens == [] then [] else ['/'] + Escape(tokens[0]) + Print(tokens[1..])
  }

  lemma {:induction false} EscapePlain(token: string)
    requires Plain(token)
    ensures Escape(token) == token
  {
    if token != [] {
      EscapePlain(token[1..]);
    }
  }

  lemma {:induction false} EscapeHasNoSlash(token: string)
    ensures '/' !in Escape(token)
  {
    if token != [] {
      EscapeHasNoSlash(token[1..]);
    }
  }

  lemma {:induction false} UnescapeEscape(token: string)
    ensures Unescape(Escape(token)) == Some(token)
  {
    if token != [] {
      UnescapeEscape(token[1..]);
      var text, rest := Escape(token), Escape(token[1..]);
      if token[0] == '~' || token[0] == '/' {
        assert text[2..] == rest;
      } else {
        assert text[1..] == rest;
      }
      assert token == [token[0]] + token[1..];
    }
  }

  lemma {:induction false} EscapeUnescape(text: string)
    requires '/' !in text && Unescape(text).Some?
    ensures Escape(Unescape(text).value) == text
    decreases |text|
  {
    if text != [] {
      var token := Unescape(text).value;
      var n := if text[0] == '~' then 2 else 1;
      EscapeUnescape(text[n..]);
      assert token[1..] == Unescape(text[n..]).value;
      assert text == text[..n] + text[n..];
    }
  }

  function EscapeAll(tokens: Tokens): seq<string> {
    if tokens == [] then [] else [Escape(tokens[0])] + EscapeAll(tokens[1..])
  }

  lemma {:induction false} Leading(c: char, a: string, b: string)
    ensures [c] + a + b == [c] + (a + b)
    ensures ([c] + a + b)[1..] == a + b
  {
  }

  lemma {:induction false} Separated(a: string, c: char, b: string)
    ensures a + ([c] + b) == a + [c] + b
  {
  }

  lemma {:induction false} PrintText(tokens: Tokens)
    requires tokens != []
    ensures Print(tokens) != [] && Print(tokens)[0] == '/'
    ensures Print(tokens)[1..] == Escape(tokens[0]) + Print(tokens[1..])
    ensures Print(tokens) == ['/'] + Print(tokens)[1..]
  {
    Leading('/', Escape(tokens[0]), Print(tokens[1..]));
  }

  lemma {:induction false} SplitJoined(head: string, tail: string)
    requires '/' !in head
    requires tail != [] ==> tail == ['/'] + tail[1..]
    ensures Split(head + tail, '/') == if tail == [] then [head] else [head] + Split(tail[1..], '/')
  {
    if tail == [] {
      assert head + tail == head;
      SplitPart(head, '/');
    } else {
      Separated(head, '/', tail[1..]);
      SplitCons(head, '/', tail[1..]);
    }
  }

  lemma {:induction false} SplitPrint(tokens: Tokens)
    requires tokens != []
    ensures Split(Print(tokens)[1..], '/') == EscapeAll(tokens)
  {
    var head, tail := Escape(tokens[0]), Print(tokens[1..]);
    PrintText(tokens);
    EscapeHasNoSlash(tokens[0]);
    if tokens[1..] != [] {
      PrintText(tokens[1..]);
      SplitPrint(tokens[1..]);
    }
    SplitJoined(head, tail);
  }

  lemma {:induction false} UnescapeEscapeAll(tokens: Tokens)
    ensures UnescapeAll(EscapeAll(tokens)) == Some(tokens)
  {
    if tokens != [] {
      UnescapeEscape(tokens[0]);
      UnescapeEscapeAll(tokens[1..]);
      assert EscapeAll(tokens)[1..] == EscapeAll(tokens[1..]);
      assert tokens == [tokens[0]] + tokens[1..];
    }
  }

  /** Printing a pointer and parsing it back gives the same tokens, for every token list. */
  lemma {:induction false} ParsePrint(tokens: Tokens)
    ensures Parse(Print(tokens)) == Some(tokens)
  {
    if tokens != [] {
      PrintText(tokens);
      SplitPrint(tokens);
      UnescapeEscapeAll(tokens);
    }
  }

  /** Only the printed form of a token list parses to it, so pointers and token lists are in bijection. */
  lemma {:induction false} PrintParse(text: string)
    requires Parse(text).Some?
    ensures Print(Parse(text).value) == text
  {
    if text != [] {
      var parts := Split(text[1..], '/');
      JoinSplit(text[1..], '/');
      PrintUnescaped(parts);
      assert text == ['/'] + text[1..];
    }
  }

  lemma {:induction false} PrintUnescaped(parts: seq<string>)
    requires |parts| > 0 && UnescapeAll(parts).Some?
    requires forall k :: 0 <= k < |parts| ==> '/' !in parts[k]
    ensures Print(UnescapeAll(parts).value) == ['/'] + Join(parts, '/')
  {
    var tokens := UnescapeAll(parts).value;
    EscapeUnescape(parts[0]);
    assert tokens[0] == Unescape(parts[0]).value;
    assert tokens[1..] == UnescapeAll(parts[1..]).value;
    PrintText(tokens);
    if |parts| == 1 {
      assert parts[1..] == [] && tokens[1..] == [];
      assert Print(tokens)[1..] == parts[0] + [];
    } else {
      PrintUnescaped(parts[1..]);
      Separated(parts[0], '/', Join(parts[1..], '/'));
    }
  }
}
