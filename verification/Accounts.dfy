/** `accounts_create` of `testsuite/resilient.py`: creating an account with retries, where a
    409 answer may have created it all the same. */
module Accounts {
  import opened Wrappers

  datatype Account = Account(id: nat, name: string)

  /** The accounts in listing order; `next` is the number the server gives out next. */
  datatype Server = Server(accounts: seq<Account>, next: nat)

  /** The answers to one attempt. After a conflict `made` tells whether the account was created
      anyway, `readOk` and `deleteOk` whether the two requests of the cleanup go through; either
      failing is an API error like the conflict itself. */
  datatype Answer = Created | Conflict(made: bool, readOk: bool, deleteOk: bool) | Refused

  /** Crashed: there was no account to clean up after a conflict, which is no API error and
      is not retried. */
  datatype Ending = Returned(account: Account) | GaveUp | Crashed

  const MAX_TRIES := 8

  function Add(s: Server, name: string): Server {
    Server(s.accounts + [Account(s.next, name)], s.next + 1)
  }

  function IndexOfName(accounts: seq<Account>, name: string): (i: nat)
    ensures i <= |accounts|
    ensures i < |accounts| ==> accounts[i].name == name
    ensures forall j :: 0 <= j < i ==> accounts[j].name != name
  {
    if accounts == [] || accounts[0].name == name then 0 else 1 + IndexOfName(accounts[1..], name)
  }

  /** The cleanup deletes the first account of that name. */
  function RemoveNamed(s: Server, name: string): Server {
    var i := IndexOfName(s.accounts, name);
    if i < |s.accounts| then s.(accounts := s.accounts[..i] + s.accounts[i + 1..]) else s
  }

  predicate Has(s: Server, name: string) {
    IndexOfName(s.accounts, name) < |s.accounts|
  }

  function Conflicted(s: Server, name: string, made: bool): Server {
    if made then Add(s, name) else s
  }

  /** The accounts after the cleanup, None when there is nothing to clean up: reading the name
      gives no account and taking its id raises. */
  function CleanedUp(s: Server, name: string, readOk: bool, deleteOk: bool): Option<Server> {
    if !readOk then Some(s)
    else if !Has(s, name) then None
    else if !deleteOk then Some(s)
    else Some(RemoveNamed(s, name))
  }

  /** What up to `tries` attempts lead to, and how many were made. */
  function Attempts(s: Server, name: string, answers: seq<Answer>, tries: nat): (Server, Ending, nat)
    requires 0 < tries <= |answers|
    decreases tries
  {
    match answers[0]
    case Created => (Add(s, name), Returned(Account(s.next, name)), 1)
    case Conflict(made, readOk, deleteOk) =>
      var cleaned := CleanedUp(Conflicted(s, name, made), name, readOk, deleteOk);
      if cleaned.None? then (Conflicted(s, name, made), Crashed, 1)
      else if tries == 1 then (cleaned.value, GaveUp, 1)
      else
        var (s', ending, n) := Attempts(cleaned.value, name, answers[1..], tries - 1);
        (s', ending, n + 1)
    case Refused =>
      if tries == 1 then (s, GaveUp, 1)
      else
        var (s', ending, n) := Attempts(s, name, answers[1..], tries - 1);
        (s', ending, n + 1)
  }

  class Client {
    const maxTries: nat
    var server: Server

    constructor (server: Server)
      ensures this.server == server && maxTries == 8
    {
      maxTries := MAX_TRIES;
      this.server := server;
    }

    /** The decorated function: at most eight attempts. */
    method AccountsCreate(name: string, answers: seq<Answer>) returns (ending: Ending, attempts: nat)
      requires |answers| >= maxTries > 0
      modifies this
      ensures (server, ending, attempts) == Attempts(old(server), name, answers, maxTries)
    {
      attempts := 0;
      while true
        invariant attempts < maxTries
        invariant var (s, e, n) := Attempts(server, name, answers[attempts..], maxTries - attempts);
          Attempts(old(server), name, answers, maxTries) == (s, e, n + attempts)
        decreases maxTries - attempts
      {
        var answer := answers[attempts];
        assert answers[attempts..][0] == answer && answers[attempts..][1..] == answers[attempts + 1..];
        attempts := attempts + 1;
        match answer {
          case Created =>
            var account := Account(server.next, name);
            server := Add(server, name);
            return Returned(account), attempts;
          case Conflict(made, readOk, deleteOk) =>
            if made {
              server := Add(server, name);
            }
            if readOk {
              if !Has(server, name) {
                return Crashed, attempts;
              }
              if deleteOk {
                server := RemoveNamed(server, name);
              }
            }
          case Refused =>
        }
        if attempts == maxTries {
          return GaveUp, attempts;
        }
      }
    }
  }

  lemma {:induction false} AttemptBound(s: Server, name: string, answers: seq<Answer>, tries: nat)
    requires 0 < tries <= |answers|
    ensures 1 <= Attempts(s, name, answers, tries).2 <= tries
    decreases tries
  {
    if tries > 1 {
      match answers[0]
      case Created =>
      case Conflict(made, readOk, deleteOk) =>
        var cleaned := CleanedUp(Conflicted(s, name, made), name, readOk, deleteOk);
        if cleaned.Some? {
          AttemptBound(cleaned.value, name, answers[1..], tries - 1);
        }
      case Refused => AttemptBound(s, name, answers[1..], tries - 1);
    }
  }

  /** It goes on until an attempt creates the account or the allowed attempts are used up: it gives
      up only after the last one, returns exactly when that attempt created the account, and no
      attempt before did. */
  lemma {:induction false} EndsExact(s: Server, name: string, answers: seq<Answer>, tries: nat)
    requires 0 < tries <= |answers|
    ensures var (s', ending, n) := Attempts(s, name, answers, tries);
      && 1 <= n <= tries
      && (ending.GaveUp? ==> n == tries)
      && (ending.Returned? <==> answers[n - 1].Created?)
      && (ending.Crashed? ==> answers[n - 1].Conflict? && answers[n - 1].readOk)
      && (forall k :: 0 <= k < n - 1 ==> !answers[k].Created?)
    decreases tries
  {
    AttemptBound(s, name, answers, tries);
    if tries > 1 {
      match answers[0]
      case Created =>
      case Conflict(made, readOk, deleteOk) =>
        var cleaned := CleanedUp(Conflicted(s, name, made), name, readOk, deleteOk);
        if cleaned.Some? {
          EndsExact(cleaned.value, name, answers[1..], tries - 1);
          EndedLater(answers, Attempts(cleaned.value, name, answers[1..], tries - 1).2);
        }
      case Refused =>
        EndsExact(s, name, answers[1..], tries - 1);
        EndedLater(answers, Attempts(s, name, answers[1..], tries - 1).2);
    }
  }

  lemma {:induction false} EndedLater(answers: seq<Answer>, n: nat)
    requires 1 <= n < |answers| && !answers[0].Created?
    requires forall k :: 0 <= k < n - 1 ==> !answers[1..][k].Created?
    ensures answers[n] == answers[1..][n - 1]
    ensures forall k :: 0 <= k < n ==> !answers[k].Created?
  {
    forall k | 0 <= k < n ensures !answers[k].Created? {
      if k > 0 { assert answers[1..][k - 1] == answers[k]; }
    }
  }

  // ----- Conservation

  /** The accounts of other names, in order. */
  function Others(accounts: seq<Account>, name: string): seq<Account> {
    if accounts == [] then []
    else (if accounts[0].name != name then [accounts[0]] else []) + Others(accounts[1..], name)
  }

  function Count(accounts: seq<Account>, name: string): nat {
    if accounts == [] then 0 else (if accounts[0].name == name then 1 else 0) + Count(accounts[1..], name)
  }

  lemma {:induction false} Appended(accounts: seq<Account>, last: Account)
    ensures Others(accounts + [last], last.name) == Others(accounts, last.name)
    ensures Count(accounts + [last], last.name) == Count(accounts, last.name) + 1
  {
    if accounts == [] {
      assert accounts + [last] == [last] && [last][1..] == [];
    } else {
      assert (accounts + [last])[0] == accounts[0] && (accounts + [last])[1..] == accounts[1..] + [last];
      Appended(accounts[1..], last);
    }
  }

  /** Taking out the first account of a name. */
  function TakenOut(accounts: seq<Account>, name: string): seq<Account>
    requires IndexOfName(accounts, name) < |accounts|
  {
    var i := IndexOfName(accounts, name);
    accounts[..i] + accounts[i + 1..]
  }

  lemma {:induction false} TakenOutKeeps(accounts: seq<Account>, name: string)
    requires IndexOfName(accounts, name) < |accounts|
    ensures Others(TakenOut(accounts, name), name) == Others(accounts, name)
    ensures Count(TakenOut(accounts, name), name) + 1 == Count(accounts, name)
  {
    var out := TakenOut(accounts, name);
    if accounts[0].name == name {
      assert out == accounts[1..];
    } else {
      assert IndexOfName(accounts, name) == 1 + IndexOfName(accounts[1..], name);
      assert out[0] == accounts[0] && out[1..] == TakenOut(accounts[1..], name);
      TakenOutKeeps(accounts[1..], name);
    }
  }

  lemma {:induction false} HasIsCount(accounts: seq<Account>, name: string)
    ensures IndexOfName(accounts, name) < |accounts| <==> Count(accounts, name) > 0
  {
    if accounts != [] {
      HasIsCount(accounts[1..], name);
    }
  }

  /** The conflicts among these answers that created an account. */
  function Made(answers: seq<Answer>): nat {
    if answers == [] then 0
    else (if answers[0].Conflict? && answers[0].made then 1 else 0) + Made(answers[1..])
  }

  predicate Cleans(answer: Answer) {
    answer.Conflict? && answer.readOk && answer.deleteOk
  }

  /** The cleanups among these answers that deleted an account. */
  function Deleted(answers: seq<Answer>): nat {
    if answers == [] then 0 else (if Cleans(answers[0]) then 1 else 0) + Deleted(answers[1..])
  }

  lemma {:induction false} ConflictKeeps(s: Server, name: string, made: bool, readOk: bool, deleteOk: bool)
    ensures var held := Conflicted(s, name, made);
      var cleaned := CleanedUp(held, name, readOk, deleteOk);
      var count := Count(s.accounts, name) + if made then 1 else 0;
      && Others(held.accounts, name) == Others(s.accounts, name) && Count(held.accounts, name) == count
      && (cleaned.None? <==> readOk && count == 0)
      && (cleaned.Some? ==>
            Others(cleaned.value.accounts, name) == Others(s.accounts, name) &&
            Count(cleaned.value.accounts, name) == if readOk && deleteOk then count - 1 else count)
  {
    var held := Conflicted(s, name, made);
    Appended(s.accounts, Account(s.next, name));
    HasIsCount(held.accounts, name);
    if Has(held, name) {
      TakenOutKeeps(held.accounts, name);
      assert RemoveNamed(held, name).accounts == TakenOut(held.accounts, name);
    }
  }

  /** The answers whose conflicts were cleaned up after, in so far as the cleanup was reached: a
      crash ends the last attempt before it deletes anything. */
  function Handled(answers: seq<Answer>, ending: Ending, n: nat): seq<Answer>
    requires 1 <= n <= |answers|
  {
    if ending.Crashed? then answers[..n - 1] else answers[..n]
  }

  lemma {:induction false} FirstHandled(answers: seq<Answer>, ending: Ending, n: nat)
    requires 2 <= n <= |answers|
    ensures Made(answers[..n]) == (if answers[0].Conflict? && answers[0].made then 1 else 0) + Made(answers[1..][..n - 1])
    ensures Deleted(Handled(answers, ending, n)) ==
            (if Cleans(answers[0]) then 1 else 0) + Deleted(Handled(answers[1..], ending, n - 1))
  {
    assert answers[..n][1..] == answers[1..][..n - 1];
    assert answers[..n - 1][1..] == answers[1..][..n - 2];
  }

  lemma {:induction false} OnlyHandled(answers: seq<Answer>, ending: Ending)
    requires answers != []
    ensures Made(answers[..1]) == if answers[0].Conflict? && answers[0].made then 1 else 0
    ensures Deleted(Handled(answers, ending, 1)) == if !ending.Crashed? && Cleans(answers[0]) then 1 else 0
  {
    assert answers[..1] == [answers[0]] && [answers[0]][1..] == [] && answers[..0] == [];
  }

  /** The accounts the second attempt starts with. */
  lemma {:induction false} SecondAttempt(s: Server, name: string, answers: seq<Answer>, tries: nat) returns (next: Server)
    requires 0 < tries <= |answers| && Attempts(s, name, answers, tries).2 > 1
    ensures tries > 1
    ensures var (s', ending, n) := Attempts(next, name, answers[1..], tries - 1);
      Attempts(s, name, answers, tries) == (s', ending, n + 1)
    ensures Others(next.accounts, name) == Others(s.accounts, name)
    ensures Count(next.accounts, name) + (if Cleans(answers[0]) then 1 else 0) ==
            Count(s.accounts, name) + (if answers[0].Conflict? && answers[0].made then 1 else 0)
  {
    match answers[0]
    case Created => next := s;
    case Conflict(made, readOk, deleteOk) =>
      ConflictKeeps(s, name, made, readOk, deleteOk);
      next := CleanedUp(Conflicted(s, name, made), name, readOk, deleteOk).value;
    case Refused => next := s;
  }

  lemma {:induction false} OnlyAttempt(s: Server, name: string, answers: seq<Answer>, tries: nat)
    requires 0 < tries <= |answers| && Attempts(s, name, answers, tries).2 == 1
    ensures var (s', ending, n) := Attempts(s, name, answers, tries);
      && Others(s'.accounts, name) == Others(s.accounts, name)
      && Count(s'.accounts, name) + (if !ending.Crashed? && Cleans(answers[0]) then 1 else 0) ==
         Count(s.accounts, name) + (if answers[0].Conflict? && answers[0].made then 1 else 0) +
         (if ending.Returned? then 1 else 0)
  {
    match answers[0]
    case Created => Appended(s.accounts, Account(s.next, name));
    case Conflict(made, readOk, deleteOk) =>
      ConflictKeeps(s, name, made, readOk, deleteOk);
      if tries > 1 && CleanedUp(Conflicted(s, name, made), name, readOk, deleteOk).Some? {
        AttemptBound(CleanedUp(Conflicted(s, name, made), name, readOk, deleteOk).value, name, answers[1..], tries - 1);
      }
    case Refused =>
      if tries > 1 {
        AttemptBound(s, name, answers[1..], tries - 1);
      }
  }

  /** Whatever is answered, accounts of other names stay as they were, in order, and those of this
      name are conserved: the ones from before, the one returned and those made by conflicts are
      the ones in the end and those deleted by cleanups. */
  lemma {:induction false} CountExact(s: Server, name: string, answers: seq<Answer>, tries: nat)
    requires 0 < tries <= |answers|
    ensures var (s', ending, n) := Attempts(s, name, answers, tries);
      && 1 <= n <= tries
      && Others(s'.accounts, name) == Others(s.accounts, name)
      && Count(s'.accounts, name) + Deleted(Handled(answers, ending, n)) ==
         Count(s.accounts, name) + Made(answers[..n]) + (if ending.Returned? then 1 else 0)
    decreases tries
  {
    AttemptBound(s, name, answers, tries);
    var (s', ending, n) := Attempts(s, name, answers, tries);
    if n > 1 {
      FirstHandled(answers, ending, n);
      var next := SecondAttempt(s, name, answers, tries);
      CountExact(next, name, answers[1..], tries - 1);
    } else {
      OnlyHandled(answers, ending);
      OnlyAttempt(s, name, answers, tries);
    }
  }

  /** So the call adds the account it returns, and nothing else, if and only if the conflicts that
      created an account are as many as the cleanups that deleted one. */
  lemma {:induction false} BalanceExact(s: Server, name: string, answers: seq<Answer>, tries: nat)
    requires 0 < tries <= |answers|
    ensures var (s', ending, n) := Attempts(s, name, answers, tries);
      && 1 <= n <= tries
      && (Count(s'.accounts, name) == Count(s.accounts, name) + (if ending.Returned? then 1 else 0) <==>
          Made(answers[..n]) == Deleted(Handled(answers, ending, n)))
  {
    CountExact(s, name, answers, tries);
  }

  /** A 409 means that the account was created. */
  predicate ConflictsCreate(answers: seq<Answer>) {
    forall k :: 0 <= k < |answers| && answers[k].Conflict? ==> answers[k].made
  }

  /** Every cleanup goes through. */
  predicate CleanupsWork(answers: seq<Answer>) {
    forall k :: 0 <= k < |answers| && answers[k].Conflict? ==> answers[k].readOk && answers[k].deleteOk
  }

  lemma {:induction false} IndexInConcat(accounts: seq<Account>, last: Account)
    requires IndexOfName(accounts, last.name) == |accounts|
    ensures IndexOfName(accounts + [last], last.name) == |accounts|
  {
    if accounts != [] {
      assert (accounts + [last])[1..] == accounts[1..] + [last];
      IndexInConcat(accounts[1..], last);
    }
  }

  lemma {:induction false} CleanupUndoes(s: Server, name: string)
    requires !Has(s, name)
    ensures Has(Add(s, name), name) && RemoveNamed(Add(s, name), name).accounts == s.accounts
  {
    IndexInConcat(s.accounts, Account(s.next, name));
  }

  /** Starting with no account of the name, with cleanups that work: it returns with exactly one,
      new, or ends with none, and every other account is where it was. It crashes only on a
      conflict that created nothing. */
  lemma {:induction false} NoneBefore(s: Server, name: string, answers: seq<Answer>, tries: nat)
    requires 0 < tries <= |answers| && !Has(s, name) && CleanupsWork(answers)
    ensures var (s', ending, n) := Attempts(s, name, answers, tries);
      && 1 <= n <= tries
      && (ending.Returned? ==>
            ending.account.name == name && ending.account.id >= s.next && s'.accounts == s.accounts + [ending.account])
      && (!ending.Returned? ==> s'.accounts == s.accounts)
      && (ending.Crashed? <==> answers[n - 1].Conflict? && !answers[n - 1].made)
    decreases tries
  {
    AttemptBound(s, name, answers, tries);
    var next := if answers[0].Conflict? && answers[0].made then RemoveNamed(Add(s, name), name) else s;
    CleanupUndoes(s, name);
    if tries > 1 {
      assert forall k :: 0 <= k < |answers[1..]| ==> answers[1..][k] == answers[k + 1];
      NoneBefore(next, name, answers[1..], tries - 1);
      AttemptBound(next, name, answers[1..], tries - 1);
    }
  }

  lemma {:induction false} MadeIsDeletedExact(answers: seq<Answer>)
    requires ConflictsCreate(answers)
    ensures Made(answers) >= Deleted(answers)
    ensures Made(answers) == Deleted(answers) <==> CleanupsWork(answers)
  {
    if answers != [] {
      assert forall k :: 0 <= k < |answers[1..]| ==> answers[1..][k] == answers[k + 1];
      MadeIsDeletedExact(answers[1..]);
      assert CleanupsWork(answers) <==> (answers[0].Conflict? ==> Cleans(answers[0])) && CleanupsWork(answers[1..]) by {
        if CleanupsWork(answers[1..]) && (answers[0].Conflict? ==> Cleans(answers[0])) {
          forall k | 0 <= k < |answers| && answers[k].Conflict? ensures answers[k].readOk && answers[k].deleteOk {
            if k > 0 { assert answers[1..][k - 1] == answers[k]; }
          }
        }
      }
    }
  }

  lemma {:induction false} NeverCrashes(s: Server, name: string, answers: seq<Answer>, tries: nat)
    requires 0 < tries <= |answers| && ConflictsCreate(answers)
    ensures !Attempts(s, name, answers, tries).1.Crashed?
    decreases tries
  {
    if answers[0].Conflict? {
      ConflictKeeps(s, name, answers[0].made, answers[0].readOk, answers[0].deleteOk);
    }
    if tries > 1 {
      assert forall k :: 0 <= k < |answers[1..]| ==> answers[1..][k] == answers[k + 1];
      match answers[0]
      case Created =>
      case Conflict(made, readOk, deleteOk) =>
        NeverCrashes(CleanedUp(Conflicted(s, name, made), name, readOk, deleteOk).value, name, answers[1..], tries - 1);
      case Refused => NeverCrashes(s, name, answers[1..], tries - 1);
    }
  }

  /** When a 409 means that the account was created, it gives up if and only if every one of the
      allowed attempts fails, however its cleanup ends, and otherwise returns at the first that
      does not. */
  lemma {:induction false} GivesUpExact(s: Server, name: string, answers: seq<Answer>, tries: nat)
    requires 0 < tries <= |answers| && ConflictsCreate(answers)
    ensures var (s', ending, n) := Attempts(s, name, answers, tries);
      && (ending.GaveUp? <==> forall k :: 0 <= k < tries ==> !answers[k].Created?)
      && (!ending.GaveUp? ==> ending.Returned? && 1 <= n <= tries && answers[n - 1].Created? &&
                              forall k :: 0 <= k < n - 1 ==> !answers[k].Created?)
  {
    EndsExact(s, name, answers, tries);
    NeverCrashes(s, name, answers, tries);
  }

  /** When a 409 means that the account was created, whatever accounts there were: the call adds
      exactly the account it returns, and none when it gives up, if and only if every cleanup it
      came to went through. */
  lemma {:induction false} OneOrNoneExact(s: Server, name: string, answers: seq<Answer>, tries: nat)
    requires 0 < tries <= |answers| && ConflictsCreate(answers)
    ensures var (s', ending, n) := Attempts(s, name, answers, tries);
      && 1 <= n <= tries && !ending.Crashed?
      && (Count(s'.accounts, name) == Count(s.accounts, name) + (if ending.Returned? then 1 else 0) <==>
          forall k :: 0 <= k < n && answers[k].Conflict? ==> answers[k].readOk && answers[k].deleteOk)
  {
    var (s', ending, n) := Attempts(s, name, answers, tries);
    NeverCrashes(s, name, answers, tries);
    BalanceExact(s, name, answers, tries);
    MadeIsDeletedExact(answers[..n]);
    assert forall k :: 0 <= k < n ==> answers[..n][k] == answers[k];
  }

  /** Requests that fail up to the last attempt, whose conflict creates the account and whose
      cleanup cannot delete it. */
  function BadLuck(tries: nat): seq<Answer>
    requires tries > 0
  {
    if tries == 1 then [Conflict(true, true, false)] else [Refused] + BadLuck(tries - 1)
  }

  lemma {:induction false} BadLuckLeavesOne(s: Server, name: string, tries: nat)
    requires tries > 0 && !Has(s, name)
    ensures |BadLuck(tries)| == tries && ConflictsCreate(BadLuck(tries))
    ensures Attempts(s, name, BadLuck(tries), tries) == (Add(s, name), GaveUp, tries)
  {
    if tries == 1 {
      CleanupUndoes(s, name);
    } else {
      BadLuckLeavesOne(s, name, tries - 1);
      assert BadLuck(tries)[1..] == BadLuck(tries - 1);
    }
  }

  /** With its eight attempts the call can give up with an account left over. */
  lemma {:induction false} GivesUpWithOne(s: Server, name: string)
    requires !Has(s, name)
    ensures Attempts(s, name, BadLuck(8), 8) == (Add(s, name), GaveUp, 8)
    ensures Count(s.accounts, name) == 0 && Count(Add(s, name).accounts, name) == 1
  {
    BadLuckLeavesOne(s, name, 8);
    HasIsCount(s.accounts, name);
    Appended(s.accounts, Account(s.next, name));
  }

  // ----- Accounts of somebody else

  /** Some attempt runs into a conflict and its cleanup goes through. */
  predicate MeetsConflict(answers: seq<Answer>, tries: nat)
    requires tries <= |answers|
    decreases tries
  {
    tries > 0 && !answers[0].Created? &&
    ((answers[0].Conflict? && answers[0].readOk && answers[0].deleteOk) || MeetsConflict(answers[1..], tries - 1))
  }

  predicate Numbered(s: Server) {
    (forall i :: 0 <= i < |s.accounts| ==> s.accounts[i].id < s.next) &&
    (forall i, j :: 0 <= i < j < |s.accounts| ==> s.accounts[i].id != s.accounts[j].id)
  }

  lemma {:induction false} StaysFirst(s: Server, name: string, made: bool)
    requires Has(s, name) && Numbered(s)
    ensures var i, held := IndexOfName(s.accounts, name), Conflicted(s, name, made);
      && Has(held, name) && Numbered(held)
      && IndexOfName(held.accounts, name) == i && held.accounts[i] == s.accounts[i]
  {
    var i, held := IndexOfName(s.accounts, name), Conflicted(s, name, made);
    assert held.accounts[i] == s.accounts[i] && forall j :: 0 <= j < i ==> held.accounts[j].name != name;
    FirstNamed(held.accounts, name, i);
  }

  lemma {:induction false} CleanupTakes(s: Server, name: string)
    requires Has(s, name) && Numbered(s)
    ensures var theirs := s.accounts[IndexOfName(s.accounts, name)];
      theirs !in RemoveNamed(s, name).accounts && theirs.id < RemoveNamed(s, name).next
  {
  }

  /** An account that already had the name is somebody else's, and the cleanup after a conflict
      takes it for its own: the first such account survives if and only if no attempt meets a
      conflict whose cleanup goes through. */
  lemma {:induction false} ForeignAccountLost(s: Server, name: string, answers: seq<Answer>, tries: nat)
    requires 0 < tries <= |answers| && Has(s, name) && Numbered(s)
    ensures var theirs := s.accounts[IndexOfName(s.accounts, name)];
      theirs in Attempts(s, name, answers, tries).0.accounts <==> !MeetsConflict(answers, tries)
    decreases tries
  {
    var i := IndexOfName(s.accounts, name);
    var theirs := s.accounts[i];
    match answers[0]
    case Created =>
      assert Add(s, name).accounts[i] == theirs;
    case Conflict(made, readOk, deleteOk) =>
      var held := Conflicted(s, name, made);
      StaysFirst(s, name, made);
      if readOk && deleteOk {
        CleanupTakes(held, name);
        if tries > 1 {
          NeverComesBack(RemoveNamed(held, name), name, answers[1..], tries - 1, theirs);
        }
      } else if tries > 1 {
        ForeignAccountLost(held, name, answers[1..], tries - 1);
      } else {
        assert held.accounts[i] == theirs;
      }
    case Refused =>
      if tries > 1 {
        ForeignAccountLost(s, name, answers[1..], tries - 1);
      }
  }

  lemma {:induction false} FirstNamed(accounts: seq<Account>, name: string, i: nat)
    requires i < |accounts| && accounts[i].name == name && forall j :: 0 <= j < i ==> accounts[j].name != name
    ensures IndexOfName(accounts, name) == i
  {
  }

  lemma {:induction false} NeverComesBack(s: Server, name: string, answers: seq<Answer>, tries: nat, gone: Account)
    requires 0 < tries <= |answers| && gone !in s.accounts && gone.id < s.next
    ensures gone !in Attempts(s, name, answers, tries).0.accounts
    decreases tries
  {
    match answers[0]
    case Created =>
    case Conflict(made, readOk, deleteOk) =>
      var held := Conflicted(s, name, made);
      var cleaned := CleanedUp(held, name, readOk, deleteOk);
      assert gone !in held.accounts;
      if cleaned.Some? && tries > 1 {
        NeverComesBack(cleaned.value, name, answers[1..], tries - 1, gone);
      }
    case Refused =>
      if tries > 1 {
        NeverComesBack(s, name, answers[1..], tries - 1, gone);
      }
  }
}
