/**
  * The check / load unlocked / re-check protocol of three caches, as atomic steps
  * of any number of threads. Objects are numbered in the order they are loaded.
  */
module CacheProtocol {
  import opened Basics

  type Key = string
  type Obj = nat

  /** What a caller asks for: Normalizer2 loads by package and name, but caches by name alone; the others have no package. */
  datatype Request = Request(package: Option<string>, key: Key)

  /** The three users differ in when the hash table is opened and when a losing object is deleted. */
  datatype Kind = ListFormatter | Normalizer2 | LocaleUtility

  /** Without a package, Normalizer2 has three names built in; calls for them do not use the cache. */
  predicate IsBuiltIn(kind: Kind, call: Request) {
    kind == Normalizer2 && call.package == None && (call.key == "nfc" || call.key == "nfkc" || call.key == "nfkc_cf")
  }

  /** What a successful call returns. */
  datatype Answer = BuiltIn(key: Key) | Shared(o: Obj)

  /** Where a thread is; an owned object is not visible to other threads. */
  datatype Phase =
    | Idle
    | Called(call: Request)                          // before the first locked section
    | Loading(call: Request)                         // the first look-up missed
    | Loaded(call: Request, own: Obj)                // before the second locked section
    | Discarding(call: Request, own: Obj, theirs: Obj) // lost the race, own object not deleted yet

  datatype State = State(
    threads: seq<Phase>,
    hash: Option<map<Key, Obj>>,
    loaded: seq<Request>,             // the request each object was loaded for
    deleted: seq<Obj>,                // delete calls, in order
    returned: seq<(Request, Answer)>) // successful calls, in order

  function Cached(s: State): map<Key, Obj> {
    match s.hash
    case None => map[]
    case Some(m) => m
  }

  function Owned(p: Phase): Option<Obj> {
    match p
    case Loaded(_, own) => Some(own)
    case Discarding(_, own, _) => Some(own)
    case _ => None
  }

  ghost predicate Init(kind: Kind, s: State) {
    && (forall i :: 0 <= i < |s.threads| ==> s.threads[i] == Idle)
    && s.hash == (if kind == LocaleUtility then Some(map[]) else None)
    && s.loaded == [] && s.deleted == [] && s.returned == []
  }

  // ---------- steps ----------

  datatype Step =
    | Call(call: Request)
    | GetBuiltIn
    | BuiltInFails
    | FirstLook
    | LoadFails
    | LoadFailsLate
    | Load
    | SecondLook
    | Discard

  function Go(s: State, i: nat, p: Phase): State
    requires i < |s.threads|
  {
    s.(threads := s.threads[i := p])
  }

  function Return(s: State, i: nat, call: Request, o: Obj): State
    requires i < |s.threads|
  {
    s.(threads := s.threads[i := Idle], returned := s.returned + [(call, Shared(o))])
  }

  /** A call for a built-in object. */
  function ReturnBuiltIn(s: State, i: nat, call: Request): State
    requires i < |s.threads|
  {
    s.(threads := s.threads[i := Idle], returned := s.returned + [(call, BuiltIn(call.key))])
  }

  /** The first locked section; ListFormatter opens the hash table in it. */
  function Look(kind: Kind, s: State, i: nat, call: Request): State
    requires i < |s.threads|
  {
    var t := if kind == ListFormatter && s.hash.None? then s.(hash := Some(map[])) else s;
    if call.key in Cached(t) then Return(t, i, call, Cached(t)[call.key]) else Go(t, i, Loading(call))
  }

  /** The second locked section; Normalizer2 opens the hash table in it. */
  function LookAgain(kind: Kind, s: State, i: nat, call: Request, own: Obj): State
    requires i < |s.threads|
    requires kind == Normalizer2 || s.hash.Some?
  {
    var t := if s.hash.None? then s.(hash := Some(map[])) else s;
    if call.key !in Cached(t) then
      Return(t.(hash := Some(Cached(t)[call.key := own])), i, call, own)
    else if kind == ListFormatter then
      Return(t.(deleted := t.deleted + [own]), i, call, Cached(t)[call.key])
    else
      Go(t, i, Discarding(call, own, Cached(t)[call.key]))
  }

  /** Thread i takes this step. */
  ghost predicate Takes(kind: Kind, s: State, i: nat, step: Step, s': State) {
    && i < |s.threads|
    && match (step, s.threads[i])
       case (Call(call), Idle) => (kind == Normalizer2 || call.package == None) && s' == Go(s, i, Called(call))
       case (GetBuiltIn, Called(call)) => IsBuiltIn(kind, call) && s' == ReturnBuiltIn(s, i, call)
       case (BuiltInFails, Called(call)) => IsBuiltIn(kind, call) && s' == Go(s, i, Idle)
       case (FirstLook, Called(call)) => !IsBuiltIn(kind, call) && s' == Look(kind, s, i, call)
       case (LoadFails, Loading(_)) => s' == Go(s, i, Idle)
       case (LoadFailsLate, Loading(call)) =>
         s' == Go(s, i, Idle).(loaded := s.loaded + [call], deleted := s.deleted + [|s.loaded|])
       case (Load, Loading(call)) => s' == Go(s, i, Loaded(call, |s.loaded|)).(loaded := s.loaded + [call])
       case (SecondLook, Loaded(call, own)) =>
         (kind == Normalizer2 || s.hash.Some?) && s' == LookAgain(kind, s, i, call, own)
       case (Discard, Discarding(call, own, theirs)) =>
         s' == Return(s.(deleted := s.deleted + [own]), i, call, theirs)
       case _ => false
  }

  ghost predicate Next(kind: Kind, s: State, s': State) {
    exists i: nat, step :: Takes(kind, s, i, step, s')
  }

  ghost predicate IsRun(kind: Kind, run: seq<State>) {
    && run != [] && Init(kind, run[0])
    && forall n :: 0 < n < |run| ==> Next(kind, run[n - 1], run[n])
  }

  // ---------- the invariant ----------

  /** Each object is in exactly one of three places: cached, owned by one thread, deleted once. */
  ghost predicate IsPlaced(s: State, o: Obj) {
    o in s.deleted || o in Cached(s).Values || exists i :: 0 <= i < |s.threads| && Owned(s.threads[i]) == Some(o)
  }

  ghost predicate DeletedOnce(s: State) {
    && (forall n :: 0 <= n < |s.deleted| ==> s.deleted[n] < |s.loaded|)
    && (forall m, n :: 0 <= m < n < |s.deleted| ==> s.deleted[m] != s.deleted[n])
  }

  ghost predicate CacheIsLive(s: State) {
    forall k :: k in Cached(s) ==>
      Cached(s)[k] < |s.loaded| && s.loaded[Cached(s)[k]].key == k && Cached(s)[k] !in s.deleted
  }

  ghost predicate OwnedIsPrivate(s: State) {
    && (forall i :: 0 <= i < |s.threads| && Owned(s.threads[i]).Some? ==>
         var o := Owned(s.threads[i]).value;
         && o < |s.loaded| && s.loaded[o] == s.threads[i].call
         && o !in s.deleted && o !in Cached(s).Values)
    && (forall i, j :: 0 <= i < j < |s.threads| && Owned(s.threads[i]).Some? ==>
         Owned(s.threads[i]) != Owned(s.threads[j]))
  }

  /** A call for this request reaches the cache. */
  ghost predicate UsesCache(s: State, n: nat)
    requires n < |s.returned|
  {
    s.returned[n].1.Shared?
  }

  ghost predicate AnswersAreCached(s: State) {
    && (forall n :: 0 <= n < |s.returned| && UsesCache(s, n) ==>
         s.returned[n].0.key in Cached(s) && Cached(s)[s.returned[n].0.key] == s.returned[n].1.o)
    && (forall i :: 0 <= i < |s.threads| && s.threads[i].Discarding? ==>
         s.threads[i].call.key in Cached(s) && Cached(s)[s.threads[i].call.key] == s.threads[i].theirs)
  }

  /** Built-in requests, and only those, get built-in objects, and no other phase is entered for them. */
  ghost predicate BuiltInsAreApart(kind: Kind, s: State) {
    && (forall n :: 0 <= n < |s.returned| ==>
         if IsBuiltIn(kind, s.returned[n].0) then s.returned[n].1 == BuiltIn(s.returned[n].0.key) else s.returned[n].1.Shared?)
    && (forall i :: 0 <= i < |s.threads| && s.threads[i] != Idle && !s.threads[i].Called? ==> !IsBuiltIn(kind, s.threads[i].call))
  }

  /** The first call for a key that got a cached object is the one that loaded it. */
  ghost predicate FirstIsCached(s: State) {
    forall n :: 0 <= n < |s.returned| && IsFirst(s, n) ==> FirstLoaded(s, n)
  }

  ghost predicate FirstLoaded(s: State, n: nat)
    requires n < |s.returned| && UsesCache(s, n)
  {
    s.returned[n].1.o < |s.loaded| && s.loaded[s.returned[n].1.o] == s.returned[n].0
  }

  ghost predicate IsFirst(s: State, n: nat)
    requires n < |s.returned|
  {
    UsesCache(s, n) && forall m :: 0 <= m < n && UsesCache(s, m) ==> s.returned[m].0.key != s.returned[n].0.key
  }

  ghost predicate HasAnswer(s: State, k: Key) {
    exists n :: 0 <= n < |s.returned| && UsesCache(s, n) && s.returned[n].0.key == k
  }

  /** Every cached object has been returned to the caller that loaded it. */
  ghost predicate CachedIsReturned(s: State) {
    forall k :: k in Cached(s) ==> HasAnswer(s, k)
  }

  /** Only Normalizer2 has packages. */
  ghost predicate PackagesFit(kind: Kind, s: State) {
    kind != Normalizer2 ==>
      && (forall i :: 0 <= i < |s.threads| && s.threads[i] != Idle ==> s.threads[i].call.package == None)
      && (forall n :: 0 <= n < |s.returned| ==> s.returned[n].0.package == None)
  }

  /** The hash table is there whenever the code uses it without looking. */
  ghost predicate HashIsOpen(kind: Kind, s: State) {
    && (kind == LocaleUtility ==> s.hash.Some?)
    && (kind == ListFormatter ==> forall i :: 0 <= i < |s.threads| && s.threads[i] != Idle && !s.threads[i].Called? ==> s.hash.Some?)
  }

  ghost predicate Inv(kind: Kind, s: State) {
    && (forall o :: 0 <= o < |s.loaded| ==> IsPlaced(s, o))
    && DeletedOnce(s) && CacheIsLive(s) && OwnedIsPrivate(s) && AnswersAreCached(s)
    && HashIsOpen(kind, s) && BuiltInsAreApart(kind, s)
    && FirstIsCached(s) && CachedIsReturned(s) && PackagesFit(kind, s)
  }

  lemma InitKeepsInv(kind: Kind, s: State)
    requires Init(kind, s)
    ensures Inv(kind, s)
  {
  }

  /** What one step does to the shared state, whoever takes it. */
  ghost predicate Grows(s: State, s': State) {
    && |s'.threads| == |s.threads|
    && s.loaded <= s'.loaded && s.deleted <= s'.deleted && s.returned <= s'.returned
    && (forall k :: k in Cached(s) ==> k in Cached(s') && Cached(s')[k] == Cached(s)[k])
  }

  lemma StepGrows(kind: Kind, s: State, i: nat, step: Step, s': State)
    requires Takes(kind, s, i, step, s')
    ensures Grows(s, s')
    ensures forall j :: 0 <= j < |s.threads| && j != i ==> s'.threads[j] == s.threads[j]
  {
  }

  /** Where a step moves objects: nowhere, from nothing to its thread, or on from its thread. */
  datatype Move = Nothing | Acquire | Publish | Delete | Waste

  ghost predicate Moves(s: State, i: nat, s': State, move: Move) {
    && i < |s.threads| && |s'.threads| == |s.threads|
    && (forall j :: 0 <= j < |s.threads| && j != i ==> s'.threads[j] == s.threads[j])
    && var before, after := Owned(s.threads[i]), Owned(s'.threads[i]);
    match move
    case Nothing =>
      && Cached(s') == Cached(s) && s'.loaded == s.loaded && s'.deleted == s.deleted && after == before
      && (after.Some? ==> s'.threads[i].call == s.threads[i].call)
    case Acquire =>
      && Cached(s') == Cached(s) && s'.deleted == s.deleted && before == None && after == Some(|s.loaded|)
      && s'.loaded == s.loaded + [s'.threads[i].call]
    case Publish =>
      && before.Some? && after == None && s'.loaded == s.loaded && s'.deleted == s.deleted
      && s.threads[i].call.key !in Cached(s) && Cached(s') == Cached(s)[s.threads[i].call.key := before.value]
    case Delete =>
      && before.Some? && after == None && s'.loaded == s.loaded && Cached(s') == Cached(s)
      && s'.deleted == s.deleted + [before.value]
    case Waste =>
      && before == after == None && Cached(s') == Cached(s)
      && |s'.loaded| == |s.loaded| + 1 && s.loaded <= s'.loaded && s'.deleted == s.deleted + [|s.loaded|]
  }

  lemma StepMoves(kind: Kind, s: State, i: nat, step: Step, s': State) returns (move: Move)
    requires Takes(kind, s, i, step, s')
    ensures Moves(s, i, s', move)
  {
    match step
    case Call(_) => move := Nothing;
    case GetBuiltIn => move := Nothing;
    case BuiltInFails => move := Nothing;
    case FirstLook => move := Nothing;
    case LoadFails => move := Nothing;
    case LoadFailsLate => move := Waste;
    case Load => move := Acquire;
    case SecondLook =>
      move := if s.threads[i].call.key !in Cached(s) then Publish else if kind == ListFormatter then Delete else Nothing;
    case Discard => move := Delete;
  }

  lemma MoveKeepsPlaces(s: State, i: nat, s': State, move: Move, o: Obj)
    requires Moves(s, i, s', move) && o < |s'.loaded|
    requires o < |s.loaded| ==> IsPlaced(s, o)
    ensures IsPlaced(s', o)
  {
    if o >= |s.loaded| {
      assert Owned(s'.threads[i]) == Some(o) || o in s'.deleted;
    } else if o in Cached(s).Values {
      var k :| k in Cached(s) && Cached(s)[k] == o;
      assert k in Cached(s') && Cached(s')[k] == o;
    } else if o !in s.deleted {
      var j :| 0 <= j < |s.threads| && Owned(s.threads[j]) == Some(o);
      if j == i && move == Publish {
        assert Cached(s')[s.threads[i].call.key] == o;
      } else if j == i && move == Delete {
        assert o in s'.deleted;
      } else {
        assert Owned(s'.threads[j]) == Some(o);
      }
    }
  }

  lemma MoveKeepsCache(s: State, i: nat, s': State, move: Move)
    requires Moves(s, i, s', move)
    requires DeletedOnce(s) && CacheIsLive(s) && OwnedIsPrivate(s)
    ensures DeletedOnce(s') && CacheIsLive(s')
  {
    forall k | k in Cached(s')
      ensures Cached(s')[k] < |s'.loaded| && s'.loaded[Cached(s')[k]].key == k && Cached(s')[k] !in s'.deleted
    {
      if k in Cached(s) {
        assert Cached(s')[k] == Cached(s)[k] && Cached(s)[k] in Cached(s).Values;
      }
    }
  }

  lemma MoveKeepsOwners(s: State, i: nat, s': State, move: Move)
    requires Moves(s, i, s', move)
    requires DeletedOnce(s) && CacheIsLive(s) && OwnedIsPrivate(s)
    ensures OwnedIsPrivate(s')
  {
    forall j | 0 <= j < |s'.threads| && Owned(s'.threads[j]).Some?
      ensures var o := Owned(s'.threads[j]).value;
              && o < |s'.loaded| && s'.loaded[o] == s'.threads[j].call
              && o !in s'.deleted && o !in Cached(s').Values
    {
      var o := Owned(s'.threads[j]).value;
      forall k | k in Cached(s') ensures Cached(s')[k] != o {
        if k in Cached(s) {
          assert Cached(s)[k] in Cached(s).Values;
        }
      }
    }
  }

  lemma StepKeepsAnswers(kind: Kind, s: State, i: nat, step: Step, s': State)
    requires AnswersAreCached(s) && Takes(kind, s, i, step, s')
    ensures AnswersAreCached(s')
  {
    hide Takes;
    StepGrows(kind, s, i, step, s');
    StepAnswers(kind, s, i, step, s');
    forall n | 0 <= n < |s'.returned| && UsesCache(s', n)
      ensures s'.returned[n].0.key in Cached(s') && Cached(s')[s'.returned[n].0.key] == s'.returned[n].1.o
    {
      if n < |s.returned| {
        assert s'.returned[n] == s.returned[n] && UsesCache(s, n);
      }
    }
  }

  /** What a step adds to the log, and what a discarding thread knows, is in the cache. */
  lemma StepAnswers(kind: Kind, s: State, i: nat, step: Step, s': State)
    requires AnswersAreCached(s) && Takes(kind, s, i, step, s')
    ensures |s'.returned| <= |s.returned| + 1
    ensures |s'.returned| > |s.returned| && s'.returned[|s.returned|].1.Shared? ==>
      var (call, a) := s'.returned[|s.returned|];
      call.key in Cached(s') && Cached(s')[call.key] == a.o
    ensures i < |s'.threads|
    ensures s'.threads[i].Discarding? ==>
      s'.threads[i].call.key in Cached(s') && Cached(s')[s'.threads[i].call.key] == s'.threads[i].theirs
  {
  }

  lemma StepKeepsHash(kind: Kind, s: State, i: nat, step: Step, s': State)
    requires HashIsOpen(kind, s) && Takes(kind, s, i, step, s')
    ensures HashIsOpen(kind, s')
  {
  }

  lemma StepKeepsBuiltIns(kind: Kind, s: State, i: nat, step: Step, s': State)
    requires BuiltInsAreApart(kind, s) && Takes(kind, s, i, step, s')
    ensures BuiltInsAreApart(kind, s')
  {
  }

  lemma StepKeepsPackages(kind: Kind, s: State, i: nat, step: Step, s': State)
    requires PackagesFit(kind, s) && Takes(kind, s, i, step, s')
    ensures PackagesFit(kind, s')
  {
  }

  /**
    * The log grows by at most one entry. If that has an object, its key was cached before or
    * the object was loaded for this very request; a key newly cached is that entry's.
    */
  ghost predicate Logs(s: State, s': State) {
    && s.loaded <= s'.loaded && s.returned <= s'.returned && |s'.returned| <= |s.returned| + 1
    && (|s'.returned| > |s.returned| && UsesCache(s', |s.returned|) ==>
         s'.returned[|s.returned|].0.key in Cached(s) || FirstLoaded(s', |s.returned|))
    && (forall k :: k in Cached(s') && k !in Cached(s) ==>
         |s'.returned| > |s.returned| && UsesCache(s', |s.returned|) && s'.returned[|s.returned|].0.key == k)
  }

  lemma StepLogs(kind: Kind, s: State, i: nat, step: Step, s': State)
    requires AnswersAreCached(s) && OwnedIsPrivate(s) && Takes(kind, s, i, step, s')
    ensures Logs(s, s')
  {
    match step
    case SecondLook => assert Owned(s.threads[i]).Some?;
    case _ =>
  }

  lemma LogKeepsFirst(s: State, s': State, n: nat)
    requires Logs(s, s') && FirstIsCached(s) && CachedIsReturned(s)
    requires n < |s'.returned| && IsFirst(s', n)
    ensures FirstLoaded(s', n)
  {
    hide HasAnswer;
    if n < |s.returned| {
      assert forall m :: 0 <= m <= n ==> s'.returned[m] == s.returned[m];
      assert IsFirst(s, n);
    } else {
      FirstHasNoAnswer(s, s', n);
    }
  }

  lemma FirstHasNoAnswer(s: State, s': State, n: nat)
    requires s.returned <= s'.returned && n == |s.returned| < |s'.returned| && IsFirst(s', n)
    ensures !HasAnswer(s, s'.returned[n].0.key)
  {
    forall m | 0 <= m < |s.returned| && UsesCache(s, m) ensures s.returned[m].0.key != s'.returned[n].0.key {
      assert s'.returned[m] == s.returned[m] && UsesCache(s', m);
    }
  }

  lemma LogKeepsReturned(s: State, s': State, k: Key)
    requires Logs(s, s') && CachedIsReturned(s) && k in Cached(s')
    ensures HasAnswer(s', k)
  {
    if k in Cached(s) {
      assert HasAnswer(s, k);
      var m :| 0 <= m < |s.returned| && UsesCache(s, m) && s.returned[m].0.key == k;
      assert s'.returned[m] == s.returned[m] && UsesCache(s', m);
    }
  }

  lemma StepKeepsFirst(kind: Kind, s: State, i: nat, step: Step, s': State)
    requires AnswersAreCached(s) && OwnedIsPrivate(s) && FirstIsCached(s) && CachedIsReturned(s)
    requires Takes(kind, s, i, step, s')
    ensures FirstIsCached(s') && CachedIsReturned(s')
  {
    hide AnswersAreCached, OwnedIsPrivate, Takes, Logs, IsFirst, HasAnswer, FirstLoaded;
    StepLogs(kind, s, i, step, s');
    forall n | 0 <= n < |s'.returned| && IsFirst(s', n) ensures UsesCache(s', n) && FirstLoaded(s', n) {
      FirstUsesCache(s', n);
      LogKeepsFirst(s, s', n);
    }
    forall k | k in Cached(s') ensures HasAnswer(s', k) {
      LogKeepsReturned(s, s', k);
    }
  }

  lemma FirstUsesCache(s: State, n: nat)
    requires n < |s.returned| && IsFirst(s, n)
    ensures UsesCache(s, n)
  {
  }

  lemma StepKeepsInv(kind: Kind, s: State, i: nat, step: Step, s': State)
    requires Inv(kind, s) && Takes(kind, s, i, step, s')
    ensures Inv(kind, s')
  {
    hide Takes, Moves, IsPlaced, DeletedOnce, CacheIsLive, OwnedIsPrivate, AnswersAreCached, HashIsOpen;
    hide FirstIsCached, CachedIsReturned, PackagesFit, BuiltInsAreApart;
    var move := StepMoves(kind, s, i, step, s');
    forall o | 0 <= o < |s'.loaded| ensures IsPlaced(s', o) {
      MoveKeepsPlaces(s, i, s', move, o);
    }
    MoveKeepsCache(s, i, s', move);
    MoveKeepsOwners(s, i, s', move);
    StepKeepsAnswers(kind, s, i, step, s');
    StepKeepsHash(kind, s, i, step, s');
    StepKeepsBuiltIns(kind, s, i, step, s');
    StepKeepsPackages(kind, s, i, step, s');
    StepKeepsFirst(kind, s, i, step, s');
  }

  // ---------- whole runs ----------

  /** Every reachable state satisfies the invariant. */
  lemma {:induction false} RunKeepsInv(kind: Kind, run: seq<State>, n: nat)
    requires IsRun(kind, run) && n < |run|
    ensures Inv(kind, run[n])
  {
    if n == 0 {
      InitKeepsInv(kind, run[0]);
    } else {
      RunKeepsInv(kind, run, n - 1);
      assert Next(kind, run[n - 1], run[n]);
      var i: nat, step :| Takes(kind, run[n - 1], i, step, run[n]);
      StepKeepsInv(kind, run[n - 1], i, step, run[n]);
    }
  }

  /** Nothing shared is ever taken back. */
  lemma {:induction false} RunGrows(kind: Kind, run: seq<State>, m: nat, n: nat)
    requires IsRun(kind, run) && m <= n < |run|
    ensures Grows(run[m], run[n])
  {
    hide Takes, Init;
    if m < n {
      RunGrows(kind, run, m, n - 1);
      assert Next(kind, run[n - 1], run[n]);
      var i: nat, step :| Takes(kind, run[n - 1], i, step, run[n]);
      StepGrows(kind, run[n - 1], i, step, run[n]);
    }
  }

  /** The request that what a caller got was made for. */
  function MadeFor(s: State, a: Answer): Request
    requires a.Shared? ==> a.o < |s.loaded|
  {
    match a
    case BuiltIn(key) => Request(None, key)
    case Shared(o) => s.loaded[o]
  }

  /**
    * All successful calls for one key, at any times and by any threads, return the same object, made for
    * that key; but a request for a built-in object is a matter apart from requests that use the cache.
    */
  lemma CallersAgree(kind: Kind, run: seq<State>, m: nat, n: nat, a: nat, b: nat)
    requires IsRun(kind, run) && m <= n < |run|
    requires a < |run[m].returned| && b < |run[n].returned|
    requires run[m].returned[a].0.key == run[n].returned[b].0.key
    requires IsBuiltIn(kind, run[m].returned[a].0) == IsBuiltIn(kind, run[n].returned[b].0)
    ensures run[m].returned[a].1 == run[n].returned[b].1
    ensures var answer := run[n].returned[b].1;
            (answer.Shared? ==> answer.o < |run[n].loaded|) && MadeFor(run[n], answer).key == run[n].returned[b].0.key
  {
    RunKeepsInv(kind, run, m);
    RunKeepsInv(kind, run, n);
    RunGrows(kind, run, m, n);
    assert UsesCache(run[m], a) <==> run[m].returned[a].1.Shared?;
    assert UsesCache(run[n], b) <==> run[n].returned[b].1.Shared?;
  }

  /** Some call is the first one with its name to get a cached object. */
  lemma {:induction false} FirstExists(s: State, b: nat) returns (a: nat)
    requires b < |s.returned| && UsesCache(s, b)
    ensures a <= b && IsFirst(s, a) && s.returned[a].0.key == s.returned[b].0.key
  {
    if IsFirst(s, b) {
      a := b;
    } else {
      var m :| 0 <= m < b && UsesCache(s, m) && s.returned[m].0.key == s.returned[b].0.key;
      a := FirstExists(s, m);
    }
  }

  /**
    * A caller gets an object that was made for its own request exactly if that is built in, or if
    * the first call with the same name that used the cache asked for the same package. Without packages
    * that is always so.
    */
  lemma OwnRequestIff(kind: Kind, run: seq<State>, n: nat, b: nat)
    requires IsRun(kind, run) && n < |run| && b < |run[n].returned|
    ensures var s, (call, answer) := run[n], run[n].returned[b];
            && (answer.Shared? ==> answer.o < |s.loaded|)
            && (MadeFor(s, answer) == call <==>
                IsBuiltIn(kind, call) ||
                exists a :: 0 <= a <= b && IsFirst(s, a) && s.returned[a].0 == call)
            && (kind != Normalizer2 ==> MadeFor(s, answer) == call)
  {
    hide IsPlaced, DeletedOnce, HashIsOpen;
    var s := run[n];
    RunKeepsInv(kind, run, n);
    CallersAgree(kind, run, n, n, b, b);
    if UsesCache(s, b) {
      var a := FirstExists(s, b);
      FirstDecides(kind, s, a, b);
      forall a' | 0 <= a' <= b && IsFirst(s, a') && s.returned[a'].0 == s.returned[b].0 ensures a' == a {
        FirstIsUnique(s, a, a');
      }
    }
  }

  lemma FirstIsUnique(s: State, a: nat, b: nat)
    requires a < |s.returned| && b < |s.returned| && IsFirst(s, a) && IsFirst(s, b)
    requires s.returned[a].0.key == s.returned[b].0.key
    ensures a == b
  {
  }

  lemma FirstDecides(kind: Kind, s: State, a: nat, b: nat)
    requires FirstIsCached(s) && AnswersAreCached(s) && PackagesFit(kind, s) && a <= b < |s.returned|
    requires IsFirst(s, a) && UsesCache(s, b) && s.returned[a].0.key == s.returned[b].0.key
    ensures s.returned[b].1.o < |s.loaded| && s.loaded[s.returned[b].1.o] == s.returned[a].0
    ensures kind != Normalizer2 ==> s.returned[a].0 == s.returned[b].0
  {
    assert FirstLoaded(s, a);
  }

  /** Asking for one name in two packages, one after the other: the second caller gets the first one's object. */
  lemma OtherPackage() returns (run: seq<State>)
    ensures IsRun(Normalizer2, run)
    ensures var s := run[|run| - 1];
            && s.returned == [(Request(None, "x"), Shared(0)), (Request(Some("p"), "x"), Shared(0))]
            && s.loaded == [Request(None, "x")]
  {
    var first, second := Request(None, "x"), Request(Some("p"), "x");
    assert "x" != "nfc" && "x" != "nfkc" && "x" != "nfkc_cf" by { assert |"x"| == 1; }
    run := LoadAndShare(first, second);
  }

  /** The run in which one thread asks first for one and then for another package of the same name. */
  lemma LoadAndShare(first: Request, second: Request) returns (run: seq<State>)
    requires first.key == second.key && !IsBuiltIn(Normalizer2, first) && !IsBuiltIn(Normalizer2, second)
    ensures IsRun(Normalizer2, run)
    ensures run[|run| - 1] ==
      State([Idle], Some(map[first.key := 0]), [first], [], [(first, Shared(0)), (second, Shared(0))])
  {
    hide IsBuiltIn;
    var s0 := State([Idle], None, [], [], []);
    var s1 := State([Called(first)], None, [], [], []);
    var s2 := State([Loading(first)], None, [], [], []);
    var s3 := State([Loaded(first, 0)], None, [first], [], []);
    var s4 := State([Idle], Some(map[first.key := 0]), [first], [], [(first, Shared(0))]);
    var s5 := State([Called(second)], Some(map[first.key := 0]), [first], [], [(first, Shared(0))]);
    var s6 := State([Idle], Some(map[first.key := 0]), [first], [], [(first, Shared(0)), (second, Shared(0))]);
    run := [s0];
    run := RunGoesOn(run, Call(first), s1);
    run := RunGoesOn(run, FirstLook, s2);
    run := RunGoesOn(run, Load, s3);
    run := RunGoesOn(run, SecondLook, s4);
    run := RunGoesOn(run, Call(second), s5);
    run := RunGoesOn(run, FirstLook, s6);
  }

  lemma RunGoesOn(run: seq<State>, step: Step, s: State) returns (run': seq<State>)
    requires IsRun(Normalizer2, run) && Takes(Normalizer2, run[|run| - 1], 0, step, s)
    ensures IsRun(Normalizer2, run') && run'[|run'| - 1] == s
  {
    hide Takes, Init;
    run' := run + [s];
    assert Next(Normalizer2, run[|run| - 1], s);
  }

  /**
    * Without a package "nfc", "nfkc" and "nfkc_cf" are always the built-in ones, also after one of another
    * package has been cached under that name; no other call gets a built-in one.
    */
  lemma BuiltInNames(kind: Kind, run: seq<State>, n: nat, b: nat)
    requires IsRun(kind, run) && n < |run| && b < |run[n].returned|
    ensures var (call, answer) := run[n].returned[b];
            && (answer.BuiltIn? <==> kind == Normalizer2 && call.package == None && call.key in ["nfc", "nfkc", "nfkc_cf"])
            && (answer.BuiltIn? ==> answer == BuiltIn(call.key) && MadeFor(run[n], answer) == call)
  {
    RunKeepsInv(kind, run, n);
  }

  /** A cached object stays cached under its key and is never deleted. */
  lemma EntriesAreForever(kind: Kind, run: seq<State>, m: nat, n: nat, key: Key)
    requires IsRun(kind, run) && m <= n < |run| && key in Cached(run[m])
    ensures key in Cached(run[n]) && Cached(run[n])[key] == Cached(run[m])[key]
    ensures Cached(run[m])[key] !in run[n].deleted
  {
    RunKeepsInv(kind, run, n);
    RunGrows(kind, run, m, n);
  }

  /** An object that a caller has been given is never deleted, not even later. */
  lemma AnswersStayLive(kind: Kind, run: seq<State>, m: nat, n: nat, a: nat)
    requires IsRun(kind, run) && m <= n < |run| && a < |run[m].returned| && UsesCache(run[m], a)
    ensures run[m].returned[a].1.o !in run[n].deleted
  {
    RunKeepsInv(kind, run, m);
    EntriesAreForever(kind, run, m, n, run[m].returned[a].0.key);
  }

  /** When no call is under way, each loaded object is the cached one for its key or has been deleted exactly once. */
  lemma NothingLeaks(kind: Kind, run: seq<State>, n: nat, o: Obj)
    requires IsRun(kind, run) && n < |run| && o < |run[n].loaded|
    requires forall i :: 0 <= i < |run[n].threads| ==> run[n].threads[i] == Idle
    ensures var s, key := run[n], run[n].loaded[o].key;
            multiset(s.deleted)[o] == if key in Cached(s) && Cached(s)[key] == o then 0 else 1
  {
    var s := run[n];
    RunKeepsInv(kind, run, n);
    assert IsPlaced(s, o);
    AtMostOnce(s.deleted, o);
  }

  lemma {:induction false} AtMostOnce(log: seq<Obj>, o: Obj)
    requires forall m, n :: 0 <= m < n < |log| ==> log[m] != log[n]
    ensures multiset(log)[o] == if o in log then 1 else 0
  {
    if log != [] {
      var last := |log| - 1;
      assert log == log[..last] + [log[last]];
      AtMostOnce(log[..last], o);
    }
  }

  function Rank(p: Phase): nat {
    match p
    case Idle => 0
    case Discarding(_, _, _) => 1
    case Loaded(_, _) => 2
    case Loading(_) => 3
    case Called(_) => 4
  }

  lemma StepLowersRank(kind: Kind, s: State, i: nat, step: Step, s': State)
    requires Takes(kind, s, i, step, s') && s.threads[i] != Idle
    ensures i < |s'.threads| && Rank(s'.threads[i]) < Rank(s.threads[i]) <= 4
  {
  }

  lemma CanGoOn(kind: Kind, s: State, i: nat)
    requires i < |s.threads| && s.threads[i] != Idle && HashIsOpen(kind, s)
    ensures exists step, s' :: Takes(kind, s, i, step, s')
  {
    match s.threads[i]
    case Called(call) =>
      if IsBuiltIn(kind, call) {
        assert Takes(kind, s, i, GetBuiltIn, ReturnBuiltIn(s, i, call));
      } else {
        assert Takes(kind, s, i, FirstLook, Look(kind, s, i, call));
      }
    case Loading(_) => assert Takes(kind, s, i, LoadFails, Go(s, i, Idle));
    case Loaded(call, own) => assert Takes(kind, s, i, SecondLook, LookAgain(kind, s, i, call, own));
    case Discarding(call, own, theirs) =>
      assert Takes(kind, s, i, Discard, Return(s.(deleted := s.deleted + [own]), i, call, theirs));
  }

  /** A thread that is in a call can always go on, and does so at most four times; the hash table is never missing. */
  lemma CallsFinish(kind: Kind, run: seq<State>, n: nat, i: nat)
    requires IsRun(kind, run) && n < |run| && i < |run[n].threads| && run[n].threads[i] != Idle
    ensures exists step, s' :: Takes(kind, run[n], i, step, s')
    ensures forall step, s' :: Takes(kind, run[n], i, step, s') ==>
              Rank(s'.threads[i]) < Rank(run[n].threads[i]) <= 4
  {
    hide Takes, Rank, IsPlaced, DeletedOnce, CacheIsLive, OwnedIsPrivate, AnswersAreCached, HashIsOpen;
    var s := run[n];
    RunKeepsInv(kind, run, n);
    CanGoOn(kind, s, i);
    forall step, s' | Takes(kind, s, i, step, s') ensures i < |s'.threads| && Rank(s'.threads[i]) < Rank(s.threads[i]) <= 4 {
      StepLowersRank(kind, s, i, step, s');
    }
  }
}
