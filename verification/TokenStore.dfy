/**
 The expiring one-time token store, and what its periodic cleanup can change: nothing
 that a caller sees, as long as the clock does not step back. Go's clock does not within a
 process; the lemmas on held tokens and seen ticks are stated for any clock.
 Times and durations are integers; each method reads the clock once.
 */
module TokenStore {
  type States = map<string, int>

  datatype Event =
    | Store(token: string, now: int)
    | Validate(token: string, now: int)
    | Cleanup(now: int)

  // ----- One step -----

  /** The answer of a validation: the token is held and its expiry has not passed. */
  predicate Accepts(states: States, token: string, now: int) {
    token in states && !(now > states[token])
  }

  function Unexpired(states: States, now: int): States {
    map token | token in states && !(now > states[token]) :: states[token]
  }

  function Step(ttl: int, states: States, e: Event): States {
    match e
    case Store(token, now) => states[token := now + ttl]
    case Validate(token, _) => states - {token}
    case Cleanup(now) => Unexpired(states, now)
  }

  class OAuthStateStore {
    var states: States
    const ttl: int

    constructor (ttl: int)
      ensures states == map[] && this.ttl == ttl
    {
      states := map[];
      this.ttl := ttl;
    }

    method StoreToken(token: string, now: int)
      modifies this
      ensures states == Step(ttl, old(states), Store(token, now))
    {
      states := states[token := now + ttl];
    }

    method ValidateToken(token: string, now: int) returns (valid: bool)
      modifies this
      ensures valid == Accepts(old(states), token, now)
      ensures states == Step(ttl, old(states), Validate(token, now))
    {
      if token !in states || now > states[token] {
        states := states - {token};
        return false;
      }
      states := states - {token};
      return true;
    }

    /** One tick of the cleanup loop, in whatever order the map is iterated. */
    method CleanupExpired(now: int)
      modifies this
      ensures states == Step(ttl, old(states), Cleanup(now))
    {
      ghost var before := states;
      var rest := states.Keys;
      while rest != {}
        invariant rest <= before.Keys && states.Keys <= before.Keys
        invariant forall token :: token in states ==> states[token] == before[token]
        invariant forall token :: token in before ==>
          (token in states <==> token in rest || !(now > before[token]))
      {
        var token :| token in rest;
        rest := rest - {token};
        if now > states[token] {
          states := states - {token};
        }
      }
    }
  }

  // ----- Runs -----

  function StateAfter(ttl: int, events: seq<Event>): States {
    if events == [] then map[]
    else Step(ttl, StateAfter(ttl, events[..|events|-1]), events[|events|-1])
  }

  /** The answers of the validations of a run, in order. */
  function Answers(ttl: int, events: seq<Event>): seq<bool> {
    if events == [] then []
    else
      var before, last := events[..|events|-1], events[|events|-1];
      Answers(ttl, before) + if last.Validate? then [Accepts(StateAfter(ttl, before), last.token, last.now)] else []
  }

  function WithoutCleanup(events: seq<Event>): seq<Event> {
    if events == [] then []
    else
      var before, last := events[..|events|-1], events[|events|-1];
      WithoutCleanup(before) + if last.Cleanup? then [] else [last]
  }

  // ----- Which tokens are held -----

  /** The token was neither stored nor validated after event j. */
  ghost predicate Untouched(events: seq<Event>, j: int, token: string) {
    forall k :: j < k < |events| && 0 <= k ==> events[k].Cleanup? || events[k].token != token
  }

  /** No tick after event j read a time past the expiry. */
  ghost predicate NotExpired(events: seq<Event>, j: int, expiry: int) {
    forall k :: j < k < |events| && 0 <= k && events[k].Cleanup? ==> events[k].now <= expiry
  }

  /** Event j stores the token at time t, and no other store or validation of it follows. */
  ghost predicate LastStoredAt(events: seq<Event>, j: int, token: string, t: int) {
    0 <= j < |events| && events[j] == Store(token, t) && Untouched(events, j, token)
  }

  ghost predicate LastStored(events: seq<Event>, token: string, t: int) {
    exists j :: LastStoredAt(events, j, token, t)
  }

  /** The token was last stored at time t, and no tick since then found it expired. */
  ghost predicate Kept(ttl: int, events: seq<Event>, token: string, t: int) {
    exists j :: LastStoredAt(events, j, token, t) && NotExpired(events, j, t + ttl)
  }

  lemma LastStoredStep(events: seq<Event>, token: string, t: int, j: int)
    requires events != []
    ensures
      var before, last := events[..|events|-1], events[|events|-1];
      LastStoredAt(events, j, token, t) <==>
      if j == |before| then last == Store(token, t)
      else (last.Cleanup? || last.token != token) && LastStoredAt(before, j, token, t)
  {}

  lemma NotExpiredStep(events: seq<Event>, j: int, expiry: int)
    requires events != [] && j < |events|
    ensures
      var before, last := events[..|events|-1], events[|events|-1];
      NotExpired(events, j, expiry) <==>
      NotExpired(before, j, expiry) && (last.Cleanup? && j < |before| ==> last.now <= expiry)
  {}

  lemma KeptStep(ttl: int, events: seq<Event>, token: string, t: int)
    requires events != []
    ensures
      var before, last := events[..|events|-1], events[|events|-1];
      Kept(ttl, events, token, t) <==>
      last == Store(token, t)
      || ((if last.Cleanup? then last.now <= t + ttl else last.token != token) && Kept(ttl, before, token, t))
  {
    var before, last := events[..|events|-1], events[|events|-1];
    forall j ensures LastStoredAt(events, j, token, t) && NotExpired(events, j, t + ttl) <==>
      if j == |before| then last == Store(token, t)
      else
        && (if last.Cleanup? then last.now <= t + ttl else last.token != token)
        && LastStoredAt(before, j, token, t) && NotExpired(before, j, t + ttl)
    {
      LastStoredStep(events, token, t, j);
      if j < |events| { NotExpiredStep(events, j, t + ttl); }
    }
    if last == Store(token, t) {
      assert LastStoredAt(events, |before|, token, t) && NotExpired(events, |before|, t + ttl);
    }
  }

  /** On every run, whatever the clock does: the held tokens and their expiries. */
  lemma {:induction false} HeldMeansKept(ttl: int, events: seq<Event>, token: string, t: int)
    ensures token in StateAfter(ttl, events) && StateAfter(ttl, events)[token] == t + ttl
            <==> Kept(ttl, events, token, t)
  {
    if events != [] {
      HeldMeansKept(ttl, events[..|events|-1], token, t);
      KeptStep(ttl, events, token, t);
    }
  }

  /** A validation succeeds exactly for a token that is kept and whose expiry has not passed. */
  lemma AcceptsKept(ttl: int, events: seq<Event>, token: string, now: int)
    ensures Accepts(StateAfter(ttl, events), token, now) <==> exists t :: Kept(ttl, events, token, t) && now <= t + ttl
  {
    var states := StateAfter(ttl, events);
    forall t ensures Kept(ttl, events, token, t) <==> token in states && states[token] == t + ttl {
      HeldMeansKept(ttl, events, token, t);
    }
    if token in states {
      assert Kept(ttl, events, token, states[token] - ttl);
    }
  }

  // ----- When the cleanup is seen -----

  lemma LastStoredNext(events: seq<Event>, token: string, t: int)
    requires events != []
    ensures
      var before, last := events[..|events|-1], events[|events|-1];
      LastStored(events, token, t) <==>
      last == Store(token, t) || ((last.Cleanup? || last.token != token) && LastStored(before, token, t))
  {
    var before, last := events[..|events|-1], events[|events|-1];
    forall j ensures LastStoredAt(events, j, token, t) <==>
      if j == |before| then last == Store(token, t)
      else (last.Cleanup? || last.token != token) && LastStoredAt(before, j, token, t)
    {
      LastStoredStep(events, token, t, j);
    }
    if last == Store(token, t) {
      assert LastStoredAt(events, |before|, token, t);
    }
  }

  lemma {:induction false} QuietKept(ttl: int, events: seq<Event>, token: string, t: int)
    ensures Kept(ttl, WithoutCleanup(events), token, t) <==> LastStored(events, token, t)
  {
    if events != [] {
      var before, last := events[..|events|-1], events[|events|-1];
      QuietKept(ttl, before, token, t);
      LastStoredNext(events, token, t);
      var quiet := WithoutCleanup(events);
      if last.Cleanup? {
        assert quiet == WithoutCleanup(before);
      } else {
        assert quiet[..|quiet|-1] == WithoutCleanup(before);
        KeptStep(ttl, quiet, token, t);
      }
    }
  }

  lemma LastStoredOnce(events: seq<Event>, token: string, j: int, t: int, j': int, t': int)
    requires LastStoredAt(events, j, token, t) && LastStoredAt(events, j', token, t')
    ensures j == j' && t == t'
  {}

  /** A validation is answered differently when a tick, and only a tick, has removed its token. */
  lemma AnswersDiffer(ttl: int, events: seq<Event>, token: string, now: int)
    ensures
      Accepts(StateAfter(ttl, events), token, now) != Accepts(StateAfter(ttl, WithoutCleanup(events)), token, now)
      <==> exists j, t :: LastStoredAt(events, j, token, t) && now <= t + ttl && !NotExpired(events, j, t + ttl)
  {
    AcceptsKept(ttl, events, token, now);
    AcceptsKept(ttl, WithoutCleanup(events), token, now);
    forall t ensures Kept(ttl, WithoutCleanup(events), token, t) <==> LastStored(events, token, t) {
      QuietKept(ttl, events, token, t);
    }
    if j, t :| LastStoredAt(events, j, token, t) {
      assert LastStored(events, token, t);
      forall j', t' | LastStoredAt(events, j', token, t') ensures j' == j && t' == t {
        LastStoredOnce(events, token, j, t, j', t');
      }
      assert Kept(ttl, events, token, t) <==> NotExpired(events, j, t + ttl);
    }
  }

  /**
   Tick k, between the store j and the validation v of one token not touched in between, reads a
   time past the store's expiry, while the validation reads one that is not.
   */
  ghost predicate Seen(ttl: int, events: seq<Event>, j: int, k: int, v: int) {
    && 0 <= j < k < v < |events|
    && events[j].Store? && events[k].Cleanup? && events[v].Validate?
    && LastStoredAt(events[..v], j, events[v].token, events[j].now)
    && events[v].now <= events[j].now + ttl < events[k].now
  }

  lemma LastAnswerSeen(ttl: int, events: seq<Event>, e: Event)
    requires events != [] && e == events[|events|-1]
    ensures
      var before := events[..|events|-1];
      (e.Validate? && Accepts(StateAfter(ttl, before), e.token, e.now)
                      != Accepts(StateAfter(ttl, WithoutCleanup(before)), e.token, e.now))
      <==> exists j, k :: Seen(ttl, events, j, k, |before|)
  {
    var before := events[..|events|-1];
    if e.Validate? {
      AnswersDiffer(ttl, before, e.token, e.now);
      if j, t :| LastStoredAt(before, j, e.token, t) && e.now <= t + ttl && !NotExpired(before, j, t + ttl) {
        var k :| j < k < |before| && before[k].Cleanup? && before[k].now > t + ttl;
        assert Seen(ttl, events, j, k, |before|);
      }
      forall j, k | Seen(ttl, events, j, k, |before|)
        ensures LastStoredAt(before, j, e.token, events[j].now) && !NotExpired(before, j, events[j].now + ttl)
      {
        assert before[k].Cleanup?;
      }
    }
  }

  /** The answers with one more event, in the run and in the run without ticks. */
  lemma AnswersNext(ttl: int, events: seq<Event>, e: Event)
    requires events != [] && e == events[|events|-1]
    ensures
      var before := events[..|events|-1];
      Answers(ttl, events) ==
        if e.Validate? then Answers(ttl, before) + [Accepts(StateAfter(ttl, before), e.token, e.now)]
        else Answers(ttl, before)
    ensures
      var quiet := WithoutCleanup(events[..|events|-1]);
      Answers(ttl, WithoutCleanup(events)) ==
        if e.Validate? then Answers(ttl, quiet) + [Accepts(StateAfter(ttl, quiet), e.token, e.now)]
        else Answers(ttl, quiet)
  {
    var before := events[..|events|-1];
    if e.Cleanup? {
      assert WithoutCleanup(events) == WithoutCleanup(before);
    } else {
      assert WithoutCleanup(events)[..|WithoutCleanup(before)|] == WithoutCleanup(before);
    }
  }

  lemma {:induction false} OneAnswerEach(ttl: int, events: seq<Event>)
    ensures |Answers(ttl, events)| == |Answers(ttl, WithoutCleanup(events))|
  {
    if events != [] {
      var before, last := events[..|events|-1], events[|events|-1];
      OneAnswerEach(ttl, before);
      AnswersNext(ttl, events, last);
    }
  }

  lemma SeenBefore(ttl: int, events: seq<Event>, j: int, k: int, v: int)
    requires events != [] && v < |events| - 1
    ensures Seen(ttl, events, j, k, v) <==> Seen(ttl, events[..|events|-1], j, k, v)
  {
    if 0 <= v {
      assert events[..|events|-1][..v] == events[..v];
    }
  }

  ghost predicate SomeSeen(ttl: int, events: seq<Event>) {
    exists j, k, v :: Seen(ttl, events, j, k, v)
  }

  lemma SomeSeenStep(ttl: int, events: seq<Event>)
    requires events != []
    ensures
      var before := events[..|events|-1];
      SomeSeen(ttl, events) <==> SomeSeen(ttl, before) || exists j, k :: Seen(ttl, events, j, k, |before|)
  {
    var before := events[..|events|-1];
    forall j, k, v | v < |before| ensures Seen(ttl, events, j, k, v) <==> Seen(ttl, before, j, k, v) {
      SeenBefore(ttl, events, j, k, v);
    }
  }

  lemma AnswersStep(ttl: int, events: seq<Event>, e: Event)
    requires events != [] && e == events[|events|-1]
    ensures
      var before := events[..|events|-1];
      var quiet := WithoutCleanup(before);
      Answers(ttl, events) != Answers(ttl, WithoutCleanup(events))
      <==> Answers(ttl, before) != Answers(ttl, quiet)
           || (e.Validate? && Accepts(StateAfter(ttl, before), e.token, e.now)
                              != Accepts(StateAfter(ttl, quiet), e.token, e.now))
  {
    var before := events[..|events|-1];
    var quiet := WithoutCleanup(before);
    OneAnswerEach(ttl, before);
    AnswersNext(ttl, events, e);
    if e.Validate? {
      SameEnds(Answers(ttl, before), Answers(ttl, quiet),
               Accepts(StateAfter(ttl, before), e.token, e.now), Accepts(StateAfter(ttl, quiet), e.token, e.now));
    }
  }

  /** On every run, whatever the clock does: the ticks change an answer exactly when one is seen. */
  lemma {:induction false} CleanupSeen(ttl: int, events: seq<Event>)
    ensures Answers(ttl, events) != Answers(ttl, WithoutCleanup(events)) <==> SomeSeen(ttl, events)
  {
    if events != [] {
      var last := events[|events|-1];
      CleanupSeen(ttl, events[..|events|-1]);
      AnswersStep(ttl, events, last);
      SomeSeenStep(ttl, events);
      LastAnswerSeen(ttl, events, last);
    }
  }

  lemma OneMoreEvent(ttl: int, events: seq<Event>, e: Event)
    ensures StateAfter(ttl, events + [e]) == Step(ttl, StateAfter(ttl, events), e)
    ensures WithoutCleanup(events + [e]) == WithoutCleanup(events) + if e.Cleanup? then [] else [e]
    ensures Answers(ttl, events + [e])
            == Answers(ttl, events) + if e.Validate? then [Accepts(StateAfter(ttl, events), e.token, e.now)] else []
  {}

  /** An instance: a tick ahead of the validation that follows it, as no monotonic clock gives. */
  lemma CleanupSeenWhenClockStepsBack(ttl: int, token: string)
    ensures var events := [Store(token, 0), Cleanup(ttl + 1), Validate(token, ttl)];
      Answers(ttl, events) == [false] && Answers(ttl, WithoutCleanup(events)) == [true]
  {
    var store, cleanup, validate := Store(token, 0), Cleanup(ttl + 1), Validate(token, ttl);
    assert [] + [store] == [store] && [store] + [cleanup] == [store, cleanup];
    assert [store, cleanup] + [validate] == [store, cleanup, validate];
    OneMoreEvent(ttl, [], store);
    OneMoreEvent(ttl, [store], cleanup);
    OneMoreEvent(ttl, [store, cleanup], validate);
    OneMoreEvent(ttl, [store], validate);
  }

  lemma SameEnds(a: seq<bool>, b: seq<bool>, x: bool, y: bool)
    requires |a| == |b|
    ensures a + [x] == b + [y] <==> a == b && x == y
  {
    assert (a + [x])[..|a|] == a && (b + [y])[..|b|] == b;
    assert (a + [x])[|a|] == x && (b + [y])[|b|] == y;
  }

  // ----- With a clock that does not step back -----

  ghost predicate ClockNeverStepsBack(events: seq<Event>) {
    forall i, j :: 0 <= i < j < |events| ==> events[i].now <= events[j].now
  }

  /** Every validation answers as in the run without the cleanup ticks. */
  lemma CleanupUnobservable(ttl: int, events: seq<Event>)
    requires ClockNeverStepsBack(events)
    ensures Answers(ttl, events) == Answers(ttl, WithoutCleanup(events))
  {
    CleanupSeen(ttl, events);
  }

  /**
   A validation succeeds exactly when the token was stored no more than ttl ago and neither stored
   again nor validated since: the expiring one-time token, whatever the cleanup loop did.
   */
  lemma ValidatesOncePerStore(ttl: int, events: seq<Event>, token: string, now: int)
    requires ClockNeverStepsBack(events + [Validate(token, now)])
    ensures Accepts(StateAfter(ttl, events), token, now) <==> exists t :: LastStored(events, token, t) && now <= t + ttl
  {
    var longer := events + [Validate(token, now)];
    AcceptsKept(ttl, events, token, now);
    forall t | Kept(ttl, events, token, t) ensures LastStored(events, token, t) {}
    forall t | LastStored(events, token, t) && now <= t + ttl ensures Kept(ttl, events, token, t) {
      var j :| LastStoredAt(events, j, token, t);
      forall k | j < k < |events| && events[k].Cleanup? ensures events[k].now <= t + ttl {
        assert longer[k].now <= longer[|events|].now;
      }
      assert NotExpired(events, j, t + ttl);
    }
  }

  // ----- How often a token validates -----

  function Stores(events: seq<Event>, token: string): nat {
    if events == [] then 0
    else
      var last := events[|events|-1];
      Stores(events[..|events|-1], token) + if last.Store? && last.token == token then 1 else 0
  }

  function Successes(ttl: int, events: seq<Event>, token: string): nat {
    if events == [] then 0
    else
      var before, last := events[..|events|-1], events[|events|-1];
      Successes(ttl, before, token)
      + if last.Validate? && last.token == token && Accepts(StateAfter(ttl, before), token, last.now) then 1 else 0
  }

  /** On every run, whatever the clock does, a token validates at most as often as it was stored. */
  lemma {:induction false} NoMoreSuccessesThanStores(ttl: int, events: seq<Event>, token: string)
    ensures Successes(ttl, events, token) + (if token in StateAfter(ttl, events) then 1 else 0) <= Stores(events, token)
  {
    if events != [] {
      NoMoreSuccessesThanStores(ttl, events[..|events|-1], token);
    }
  }
}
