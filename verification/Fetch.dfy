/**
 * The category fetch loop of `fetchCategories`: requests go out one after the
 * other until `requestsMade` reaches `MAX_REQUESTS`. Each attempt's outcome is
 * an input, in the order the requests resolve.
 */
module Fetch {
  import opened Store
  import opened FisherYates

  const MaxRequests: nat := 5

  /**
   * How one request ends: `Failed` when the network call, the status check or
   * the JSON parse fails (the catch handler runs before line 59), `Received`
   * when the success handler gets a parsed body; `draws` are its shuffle draws.
   */
  datatype Attempt = Failed | Received(data: Payload, draws: seq<nat>)

  /** The shuffle draws of a received payload are in range, as `Math.random` guarantees. */
  predicate WellDrawn(a: Attempt) {
    a.Received? && a.data.clues.Some? ==> ValidDraws(a.draws, |a.data.clues.value|)
  }

  predicate AllWellDrawn(attempts: seq<Attempt>) {
    forall k :: 0 <= k < |attempts| ==> WellDrawn(attempts[k])
  }

  /** How many of the attempts reached the success handler, which counts them at line 59. */
  function Counted(attempts: seq<Attempt>): (n: nat)
    ensures n <= |attempts|
  {
    if attempts == [] then 0
    else (if attempts[0].Received? then 1 else 0) + Counted(attempts[1..])
  }

  lemma {:induction false} CountedAppend(s: seq<Attempt>, t: seq<Attempt>)
    ensures Counted(s + t) == Counted(s) + Counted(t)
  {
    if s == [] {
      assert s + t == t;
    } else {
      assert (s + t)[0] == s[0] && (s + t)[1..] == s[1..] + t;
      CountedAppend(s[1..], t);
    }
  }

  lemma CountedCons(a: Attempt, rest: seq<Attempt>)
    ensures Counted([a] + rest) == (if a.Received? then 1 else 0) + Counted(rest)
  {
    assert ([a] + rest)[1..] == rest;
  }

  /**
   * How many requests `fetchNextCategory` starts, from the attempts still to
   * come, when `made` have already been counted: none once `made` reaches the
   * cap (lines 44-47), otherwise one more and then the rest.
   */
  function Issued(attempts: seq<Attempt>, made: nat): (n: nat)
    ensures n <= |attempts|
  {
    if made >= MaxRequests || attempts == [] then 0
    else 1 + Issued(attempts[1..], made + (if attempts[0].Received? then 1 else 0))
  }

  /** `Issued` from the front: one request for the first attempt, then the rest from the updated count. */
  lemma IssuedCons(attempts: seq<Attempt>, made: nat)
    requires made < MaxRequests && attempts != []
    ensures Issued(attempts, made) == 1 + Issued(attempts[1..], made + (if attempts[0].Received? then 1 else 0))
  {
  }

  /** The first `n + 1` attempts are the first one and then `n` of the rest; the count splits accordingly. */
  lemma CountedPrefix(attempts: seq<Attempt>, n: nat)
    requires 0 < n <= |attempts|
    ensures Counted(attempts[..n]) == (if attempts[0].Received? then 1 else 0) + Counted(attempts[1..][..n - 1])
  {
    assert attempts[..n] == [attempts[0]] + attempts[1..][..n - 1];
    CountedCons(attempts[0], attempts[1..][..n - 1]);
  }

  /**
   * The loop stops when it should: it counts at most the cap, and while the
   * cap is not reached it uses every attempt there is.
   */
  lemma {:induction false} IssuedStopsAtCap(attempts: seq<Attempt>, made: nat)
    requires made <= MaxRequests
    ensures made + Counted(attempts[..Issued(attempts, made)]) <= MaxRequests
    ensures made + Counted(attempts[..Issued(attempts, made)]) < MaxRequests ==> Issued(attempts, made) == |attempts|
  {
    if made < MaxRequests && attempts != [] {
      var step := if attempts[0].Received? then 1 else 0;
      IssuedCons(attempts, made);
      IssuedStopsAtCap(attempts[1..], made + step);
      CountedPrefix(attempts, Issued(attempts, made));
    }
  }

  /** Once the loop reaches the cap, the last request it started was the fifth success: nothing is started after it. */
  lemma {:induction false} IssuedEndsOnSuccess(attempts: seq<Attempt>, made: nat)
    requires made < MaxRequests
    ensures var n := Issued(attempts, made);
      n > 0 && made + Counted(attempts[..n]) == MaxRequests ==>
        attempts[n - 1].Received? && made + Counted(attempts[..n - 1]) < MaxRequests
  {
    var n := Issued(attempts, made);
    if attempts != [] {
      var step := if attempts[0].Received? then 1 else 0;
      IssuedCons(attempts, made);
      CountedPrefix(attempts, n);
      if made + step < MaxRequests {
        IssuedEndsOnSuccess(attempts[1..], made + step);
        if n > 1 {
          CountedPrefix(attempts, n - 1);
          assert attempts[n - 1] == attempts[1..][n - 2];
        }
      } else {
        assert n == 1;
        assert attempts[..0] == [];
      }
    }
  }

  /** The database after one attempt: a failure changes nothing. */
  function Step(db: Db, a: Attempt): (db': Db)
    requires WellDrawn(a)
  {
    match a
    case Failed => db
    case Received(data, draws) => Ingest(db, data, draws)
  }

  /** The database after the attempts, in order. */
  function Run(db: Db, attempts: seq<Attempt>): (db': Db)
    requires AllWellDrawn(attempts)
  {
    if attempts == [] then db
    else Step(Run(db, attempts[..|attempts| - 1]), attempts[|attempts| - 1])
  }

  /** One more turn of the fetch loop, from the attempt at `i` with `made` counted so far. */
  lemma LoopStep(db: Db, attempts: seq<Attempt>, i: nat, made: nat)
    requires i < |attempts| && made < MaxRequests && AllWellDrawn(attempts)
    ensures WellDrawn(attempts[i]) && AllWellDrawn(attempts[..i]) && AllWellDrawn(attempts[..i + 1])
    ensures Counted(attempts[..i + 1]) == Counted(attempts[..i]) + (if attempts[i].Received? then 1 else 0)
    ensures Issued(attempts[i..], made) == 1 + Issued(attempts[i + 1..], made + (if attempts[i].Received? then 1 else 0))
    ensures Run(db, attempts[..i + 1]) == Step(Run(db, attempts[..i]), attempts[i])
  {
    assert attempts[..i + 1] == attempts[..i] + [attempts[i]];
    CountedAppend(attempts[..i], [attempts[i]]);
    assert attempts[i..][1..] == attempts[i + 1..];
    IssuedCons(attempts[i..], made);
    assert attempts[..i + 1][..i] == attempts[..i];
  }

  /** How many attempts delivered a payload with a clue array. */
  function Ingested(attempts: seq<Attempt>): (n: nat)
  {
    if attempts == [] then 0
    else
      var a := attempts[|attempts| - 1];
      Ingested(attempts[..|attempts| - 1]) + (if a.Received? && a.data.clues.Some? then 1 else 0)
  }

  /**
   * Every attempt with a clue array appends one category and nothing else
   * does; earlier categories stay as they were; keys once in the store stay.
   */
  lemma {:induction false} RunAppends(db: Db, attempts: seq<Attempt>)
    requires AllWellDrawn(attempts)
    ensures |Run(db, attempts).categories| == |db.categories| + Ingested(attempts)
    ensures Run(db, attempts).categories[..|db.categories|] == db.categories
    ensures forall k :: k in db.clues ==> k in Run(db, attempts).clues
  {
    if attempts != [] {
      var prefix := attempts[..|attempts| - 1];
      var a := attempts[|attempts| - 1];
      RunAppends(db, prefix);
      var mid := Run(db, prefix);
      if a.Received? && a.data.clues.Some? {
        IngestSpec(mid, a.data, a.draws);
        assert Run(db, attempts).categories[..|mid.categories|] == mid.categories;
        assert mid.categories[..|db.categories|] == db.categories;
      }
    }
  }

  /** A payload without a clue array is counted at line 59 yet adds no category, so the count never falls short of what was added. */
  lemma {:induction false} IngestedAtMostCounted(attempts: seq<Attempt>)
    ensures Ingested(attempts) <= Counted(attempts)
  {
    if attempts != [] {
      var prefix := attempts[..|attempts| - 1];
      var a := attempts[|attempts| - 1];
      IngestedAtMostCounted(prefix);
      assert attempts == prefix + [a];
      CountedAppend(prefix, [a]);
    }
  }

  /** One run of the fetch loop adds at most five categories to the board. */
  lemma AtMostFiveCategories(db: Db, attempts: seq<Attempt>)
    requires AllWellDrawn(attempts)
    ensures var n := Issued(attempts, 0);
      |Run(db, attempts[..n]).categories| <= |db.categories| + MaxRequests
  {
    var n := Issued(attempts, 0);
    IssuedStopsAtCap(attempts, 0);
    IngestedAtMostCounted(attempts[..n]);
    assert AllWellDrawn(attempts[..n]);
    RunAppends(db, attempts[..n]);
  }

  /** However the attempts turn out, the database stays consistent. */
  lemma {:induction false} RunKeepsConsistent(db: Db, attempts: seq<Attempt>)
    requires Consistent(db) && AllWellDrawn(attempts)
    ensures Consistent(Run(db, attempts))
  {
    if attempts != [] {
      var a := attempts[|attempts| - 1];
      RunKeepsConsistent(db, attempts[..|attempts| - 1]);
      if a.Received? {
        IngestKeepsConsistent(Run(db, attempts[..|attempts| - 1]), a.data, a.draws);
      }
    }
  }
}
