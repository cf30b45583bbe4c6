/** Chunked reading, searching and cleanup of mails: `testsuite/mailhog.py`. Conditions on a
    message's fields are given as one predicate. */
module Mailbox {
  import opened Wrappers

  datatype Message = Message(id: string, text: string)

  type Mail = seq<Message>

  function Min(a: int, b: int): int { if a < b then a else b }

  /** The server's answer to start and limit. */
  function Page(mail: Mail, start: nat, size: nat): Mail {
    mail[Min(start, |mail|)..Min(start + size, |mail|)]
  }

  /** `limit or total` */
  function Total(mail: Mail, limit: Option<int>): int {
    if limit.Some? && limit.value != 0 then limit.value else |mail|
  }

  function Pages(mail: Mail, total: int, size: nat, start: nat): seq<Mail>
    requires size > 0
    decreases total - start
  {
    if start >= total then [] else [Page(mail, start, size)] + Pages(mail, total, size, start + size)
  }

  function Flatten(pages: seq<Mail>): Mail {
    if pages == [] then [] else pages[0] + Flatten(pages[1..])
  }

  /** The first multiple of the chunk size, counted from start, that reaches the total. */
  function RoundUp(total: int, size: nat, start: nat): (r: nat)
    requires size > 0
    ensures r >= start && r >= total && (start < total ==> r < total + size)
    decreases total - start
  {
    if start >= total then start else RoundUp(total, size, start + size)
  }

  lemma {:induction false} RoundUpIsMultiple(total: int, size: nat, start: nat) returns (k: nat)
    requires size > 0
    ensures RoundUp(total, size, start) == start + k * size
    decreases total - start
  {
    if start >= total {
      k := 0;
    } else {
      var more := RoundUpIsMultiple(total, size, start + size);
      k := more + 1;
      assert k * size == more * size + size;
    }
  }

  /** The chunks concatenate to the mailbox up to the total rounded up to whole chunks. */
  lemma {:induction false} PagesConcatenate(mail: Mail, total: int, size: nat, start: nat)
    requires size > 0
    ensures Flatten(Pages(mail, total, size, start)) == mail[Min(start, |mail|)..Min(RoundUp(total, size, start), |mail|)]
    decreases total - start
  {
    if start < total {
      PagesConcatenate(mail, total, size, start + size);
      var pages := Pages(mail, total, size, start);
      assert pages[1..] == Pages(mail, total, size, start + size);
    }
  }

  /** So many whole chunks reach this length, and fewer do not. */
  predicate Reaches(length: int, size: nat, chunks: nat) {
    (chunks - 1) * size < length <= chunks * size
  }

  /** Without a limit the chunks are the mailbox; with a positive one they are its prefix of
      that length rounded up to whole chunks; with a negative one there are none. */
  lemma {:induction false} ChunksExact(mail: Mail, size: nat, limit: Option<int>)
    requires size > 0
    ensures var chunks := Pages(mail, Total(mail, limit), size, 0);
      && (limit == None || limit == Some(0) ==> Flatten(chunks) == mail)
      && (limit.Some? && limit.value > 0 ==>
            exists n: nat :: Reaches(limit.value, size, n) && Flatten(chunks) == mail[..Min(n * size, |mail|)])
      && (limit.Some? && limit.value < 0 ==> chunks == [])
  {
    var total := Total(mail, limit);
    PagesConcatenate(mail, total, size, 0);
    assert mail[..|mail|] == mail;
    var n := RoundUpIsMultiple(total, size, 0);
    if total > 0 {
      assert (n - 1) * size == n * size - size;
      assert Reaches(total, size, n);
    }
  }

  function Filter(p: Message -> bool, mail: Mail): Mail {
    if mail == [] then [] else (if p(mail[0]) then [mail[0]] else []) + Filter(p, mail[1..])
  }

  lemma {:induction false} FilterConcat(p: Message -> bool, a: Mail, b: Mail)
    ensures Filter(p, a + b) == Filter(p, a) + Filter(p, b)
  {
    if a == [] {
      assert a + b == b && Filter(p, a) == [];
    } else {
      var first := if p(a[0]) then [a[0]] else [];
      assert (a + b)[0] == a[0] && (a + b)[1..] == a[1..] + b;
      FilterConcat(p, a[1..], b);
      assert Filter(p, a + b) == first + Filter(p, a[1..] + b);
      assert Filter(p, a) == first + Filter(p, a[1..]);
    }
  }

  lemma {:induction false} FilterMembers(p: Message -> bool, mail: Mail, m: Message)
    ensures m in Filter(p, mail) <==> m in mail && p(m)
  {
    if mail != [] {
      FilterMembers(p, mail[1..], m);
      assert m in mail <==> m == mail[0] || m in mail[1..];
    }
  }

  function Ids(mail: Mail): set<string> {
    set m | m in mail :: m.id
  }

  function Outside(ids: set<string>): Message -> bool {
    (m: Message) => m.id !in ids
  }

  /** The mailbox after deleting these messages one by one. */
  function Without(mail: Mail, ids: set<string>): Mail {
    Filter(Outside(ids), mail)
  }

  class Mailhog {
    var mail: Mail
    var searched: set<string>
    const chunk: nat

    constructor (chunk: nat, mail: Mail)
      requires chunk > 0
      ensures this.chunk == chunk && this.mail == mail && searched == {}
    {
      this.chunk, this.mail, searched := chunk, mail, {};
    }

    /** `get_messages_by_chunk` on a mailbox that is stable meanwhile. */
    method GetMessagesByChunk(size: nat, limit: Option<int>) returns (pages: seq<Mail>)
      requires size > 0
      ensures pages == Pages(mail, Total(mail, limit), size, 0)
    {
      pages := [];
      var total := Total(mail, limit);
      var i := 0;
      while i < total
        invariant pages + Pages(mail, total, size, i) == Pages(mail, total, size, 0)
      {
        pages := pages + [Page(mail, i, size)];
        i := i + size;
      }
    }

    /** `all_messages`: the whole mailbox, in order. */
    method AllMessages() returns (all: Mail)
      requires chunk > 0
      ensures all == mail
    {
      var pages := GetMessagesByChunk(chunk, None);
      ChunksExact(mail, chunk, None);
      all := [];
      for k := 0 to |pages|
        invariant all + Flatten(pages[k..]) == Flatten(pages)
      {
        assert pages[k..][1..] == pages[k + 1..];
        all := all + pages[k];
      }
    }

    /** `find_messages`: the matching messages in order, remembered for cleanup. */
    method Find(p: Message -> bool) returns (found: Mail)
      requires chunk > 0
      modifies this`searched
      ensures found == Filter(p, mail)
      ensures searched == old(searched) + Ids(found)
    {
      found := [];
      var i := 0;
      while i < |mail|
        invariant found == Filter(p, mail[..Min(i, |mail|)])
        invariant searched == old(searched) + Ids(found)
      {
        var page := Page(mail, i, chunk);
        ghost var before := found;
        for k := 0 to |page|
          invariant found == before + Filter(p, page[..k])
          invariant searched == old(searched) + Ids(found)
        {
          assert page[..k + 1] == page[..k] + [page[k]];
          FilterConcat(p, page[..k], [page[k]]);
          assert [page[k]][1..] == [];
          if p(page[k]) {
            found := found + [page[k]];
            searched := searched + {page[k].id};
          }
        }
        assert page[..|page|] == page;
        FilterConcat(p, mail[..Min(i, |mail|)], page);
        assert mail[..Min(i, |mail|)] + page == mail[..Min(i + chunk, |mail|)];
        i := i + chunk;
      }
      assert mail[..|mail|] == mail;
    }

    /** `delete_searched_messages`: one deletion for each remembered identifier. The request
        number `failure` fails, if any does; then the identifiers stay remembered, those deleted
        so far included. */
    method DeleteSearched(failure: Option<nat>) returns (raised: bool, ghost done: set<string>)
      modifies this
      ensures done <= old(searched) && mail == Without(old(mail), done)
      ensures raised <==> failure.Some? && failure.value < |old(searched)|
      ensures if raised then searched == old(searched) && |done| == failure.value else searched == {} && done == old(searched)
    {
      EmptyWithout(mail);
      done := {};
      if |searched| > 0 {
        var ids := searched;
        var requests := 0;
        while ids != {}
          invariant ids <= searched == old(searched)
          invariant done == searched - ids && |done| == requests && |ids| + requests == |searched|
          invariant mail == Without(old(mail), done)
          invariant failure.Some? ==> requests <= failure.value
          decreases ids
        {
          var id :| id in ids;
          if failure == Some(requests) {
            return true, done;
          }
          WithoutTwice(old(mail), done, {id});
          mail := Without(mail, {id});
          done := done + {id};
          ids := ids - {id};
          requests := requests + 1;
          assert done == searched - ids;
        }
        assert done == searched;
        searched := {};
      } else {
        assert searched == {};
      }
      return false, done;
    }
  }

  /** A cleanup that failed and is repeated leaves what one that went through would have. */
  lemma {:induction false} RepeatedCleanup(mail: Mail, done: set<string>, searched: set<string>)
    requires done <= searched
    ensures Without(Without(mail, done), searched) == Without(mail, searched)
  {
    WithoutTwice(mail, done, searched);
    assert done + searched == searched;
  }

  lemma {:induction false} WithoutTwice(mail: Mail, a: set<string>, b: set<string>)
    ensures Without(Without(mail, a), b) == Without(mail, a + b)
  {
    if mail != [] {
      WithoutTwice(mail[1..], a, b);
      var first := Filter(Outside(a), [mail[0]]);
      assert [mail[0]][1..] == [];
      assert mail == [mail[0]] + mail[1..];
      FilterConcat(Outside(a), [mail[0]], mail[1..]);
      FilterConcat(Outside(b), first, Without(mail[1..], a));
    }
  }

  lemma {:induction false} EmptyWithout(mail: Mail)
    ensures Without(mail, {}) == mail
  {
    if mail != [] {
      EmptyWithout(mail[1..]);
    }
  }

  // ----- Runs between two cleanups

  datatype Event = Arrive(message: Message) | Search(p: Message -> bool)

  function After(mail: Mail, events: seq<Event>): Mail
    decreases |events|
  {
    if events == [] then mail
    else After(if events[0].Arrive? then mail + [events[0].message] else mail, events[1..])
  }

  function Searched(mail: Mail, events: seq<Event>): set<string>
    decreases |events|
  {
    if events == [] then {}
    else if events[0].Arrive? then Searched(mail + [events[0].message], events[1..])
    else Ids(Filter(events[0].p, mail)) + Searched(mail, events[1..])
  }

  /** Some search of the run saw a message of this id and matched it. */
  ghost predicate WasFound(mail: Mail, events: seq<Event>, id: string) {
    exists k, m :: 0 <= k < |events| && events[k].Search? && m in After(mail, events[..k]) && m.id == id && events[k].p(m)
  }

  lemma {:induction false} SearchedExact(mail: Mail, events: seq<Event>, id: string)
    ensures id in Searched(mail, events) <==> WasFound(mail, events, id)
    decreases |events|
  {
    if events != [] {
      var next := if events[0].Arrive? then mail + [events[0].message] else mail;
      SearchedExact(next, events[1..], id);
      forall k | 0 <= k < |events| - 1 ensures After(mail, events[..k + 1]) == After(next, events[1..][..k]) {
        assert events[..k + 1][1..] == events[1..][..k];
      }
      assert events[..0] == [];
      if events[0].Search? {
        FoundFirst(mail, events, id);
      }
      if WasFound(next, events[1..], id) {
        var k, m :| 0 <= k < |events[1..]| && events[1..][k].Search? && m in After(next, events[1..][..k]) &&
          m.id == id && events[1..][k].p(m);
        assert events[k + 1] == events[1..][k] && m in After(mail, events[..k + 1]);
      }
      if WasFound(mail, events, id) {
        var k, m :| 0 <= k < |events| && events[k].Search? && m in After(mail, events[..k]) && m.id == id && events[k].p(m);
        if k > 0 {
          assert events[1..][k - 1] == events[k] && m in After(next, events[1..][..k - 1]);
        }
      }
    }
  }

  lemma {:induction false} FoundFirst(mail: Mail, events: seq<Event>, id: string)
    requires events != [] && events[0].Search?
    ensures id in Ids(Filter(events[0].p, mail)) <==> exists m :: m in mail && m.id == id && events[0].p(m)
    ensures id in Ids(Filter(events[0].p, mail)) ==> WasFound(mail, events, id)
  {
    forall m ensures m in Filter(events[0].p, mail) <==> m in mail && events[0].p(m) {
      FilterMembers(events[0].p, mail, m);
    }
    assert After(mail, events[..0]) == mail;
  }

  /** With mails arriving between searches, cleanup keeps exactly the messages no search since
      the last cleanup has matched. */
  lemma {:induction false} CleanupExact(mail: Mail, events: seq<Event>, m: Message)
    requires m in After(mail, events)
    ensures m in Without(After(mail, events), Searched(mail, events)) <==> !WasFound(mail, events, m.id)
  {
    FilterMembers(Outside(Searched(mail, events)), After(mail, events), m);
    SearchedExact(mail, events, m.id);
  }

  // ----- Cleanups that fail in the middle of a run

  /** A mail arrives, a search is made, or a cleanup fails after deleting some of what is
      remembered, which stays remembered. */
  datatype Happening = Plainly(event: Event) | FailedCleanup(done: set<string>)

  datatype Box = Box(mail: Mail, searched: set<string>)

  function Happen(b: Box, h: Happening): Box {
    match h
    case Plainly(Arrive(m)) => b.(mail := b.mail + [m])
    case Plainly(Search(p)) => b.(searched := b.searched + Ids(Filter(p, b.mail)))
    case FailedCleanup(done) => b.(mail := Without(b.mail, done * b.searched))
  }

  function HappenAll(b: Box, hs: seq<Happening>): Box
    decreases |hs|
  {
    if hs == [] then b else HappenAll(Happen(b, hs[0]), hs[1..])
  }

  /** The run without its failed cleanups. */
  function Events(hs: seq<Happening>): seq<Event> {
    if hs == [] then [] else (if hs[0].Plainly? then [hs[0].event] else []) + Events(hs[1..])
  }

  /** Two mailboxes that agree on everything not remembered. */
  ghost predicate Alike(a: Box, b: Box) {
    a.searched == b.searched && Without(a.mail, a.searched) == Without(b.mail, b.searched)
  }

  lemma {:induction false} FoundAlike(p: Message -> bool, a: Mail, b: Mail, ids: set<string>)
    requires Without(a, ids) == Without(b, ids)
    ensures ids + Ids(Filter(p, a)) == ids + Ids(Filter(p, b))
  {
    forall m: Message | m.id !in ids ensures m in Filter(p, a) <==> m in Filter(p, b) {
      FilterMembers(p, a, m);
      FilterMembers(p, b, m);
      FilterMembers(Outside(ids), a, m);
      FilterMembers(Outside(ids), b, m);
    }
    assert forall id :: id in Ids(Filter(p, a)) && id !in ids ==> id in Ids(Filter(p, b));
    assert forall id :: id in Ids(Filter(p, b)) && id !in ids ==> id in Ids(Filter(p, a));
  }

  lemma {:induction false} MoreRemembered(a: Mail, b: Mail, ids: set<string>, more: set<string>)
    requires Without(a, ids) == Without(b, ids) && ids <= more
    ensures Without(a, more) == Without(b, more)
  {
    WithoutTwice(a, ids, more);
    WithoutTwice(b, ids, more);
    assert ids + more == more;
  }

  lemma {:induction false} SameHappening(a: Box, b: Box, e: Event)
    requires Alike(a, b)
    ensures Alike(Happen(a, Plainly(e)), Happen(b, Plainly(e)))
  {
    match e
    case Arrive(m) =>
      FilterConcat(Outside(a.searched), a.mail, [m]);
      FilterConcat(Outside(a.searched), b.mail, [m]);
    case Search(p) =>
      FoundAlike(p, a.mail, b.mail, a.searched);
      MoreRemembered(a.mail, b.mail, a.searched, a.searched + Ids(Filter(p, a.mail)));
  }

  lemma {:induction false} FailedCleanupAlike(a: Box, b: Box, done: set<string>)
    requires Alike(a, b)
    ensures Alike(Happen(a, FailedCleanup(done)), b)
  {
    RepeatedCleanup(a.mail, done * a.searched, a.searched);
  }

  lemma {:induction false} RunsAlike(a: Box, b: Box, hs: seq<Happening>)
    requires Alike(a, b)
    ensures var events := Events(hs);
      Alike(HappenAll(a, hs), Box(After(b.mail, events), b.searched + Searched(b.mail, events)))
    decreases |hs|
  {
    var events := Events(hs);
    if hs == [] {
      assert b.searched + {} == b.searched;
    } else {
      match hs[0]
      case FailedCleanup(done) =>
        FailedCleanupAlike(a, b, done);
        RunsAlike(Happen(a, hs[0]), b, hs[1..]);
        assert events == Events(hs[1..]);
      case Plainly(e) =>
        var next := Happen(b, hs[0]);
        SameHappening(a, b, e);
        RunsAlike(Happen(a, hs[0]), next, hs[1..]);
        assert events == [e] + Events(hs[1..]) && events[1..] == Events(hs[1..]);
        assert next.searched + Searched(next.mail, events[1..]) == b.searched + Searched(b.mail, events);
    }
  }

  /** Over every run with mails arriving and cleanups failing between the searches: when a cleanup
      goes through in the end, what is left is what there would be had the others not been tried.
      A message is left if and only if it came and no search has matched one of its identifier. */
  lemma {:induction false} FailuresDoNotMatter(mail: Mail, hs: seq<Happening>, m: Message)
    ensures var (last, events) := (HappenAll(Box(mail, {}), hs), Events(hs));
      && last.searched == Searched(mail, events)
      && Without(last.mail, last.searched) == Without(After(mail, events), Searched(mail, events))
      && (m in Without(last.mail, last.searched) <==> m in After(mail, events) && !WasFound(mail, events, m.id))
  {
    var events := Events(hs);
    RunsAlike(Box(mail, {}), Box(mail, {}), hs);
    assert {} + Searched(mail, events) == Searched(mail, events);
    if m in After(mail, events) {
      CleanupExact(mail, events, m);
    } else {
      FilterMembers(Outside(Searched(mail, events)), After(mail, events), m);
    }
  }
}
