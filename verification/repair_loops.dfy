/**
 * The bounded verify-and-repair loops.
 *
 * Every loop in the pipeline checks a candidate query; on failure it adds one to
 * a counter `tries`, asks the repair oracle for a new candidate, and gives up once
 * the counter reaches a bound. The source writes the bound two ways: `tries > m`
 * with a counter shared by the whole run, and `tries >= m` with a counter that
 * starts at zero in each loop. Both are "stop when `tries >= stopAt`", with
 * `stopAt = m + 1` and `stopAt = m` respectively.
 *
 * The loops come in two shapes that differ in where the repair happens:
 * - `RepairFirst` (fragment loops): on failure it counts, repairs, and only then
 *   tests the bound, so the last failure is repaired too;
 * - `TestFirst` (composite loops): on failure it counts, tests the bound, and
 *   repairs only when it will check again.
 */
module RepairLoops {
  import opened Types

  /** What a loop did: whether it ended on a passing check, and what it called along the way. */
  datatype Attempt = Attempt(
    passed: bool,      // the loop ended because a check passed
    text: string,      // the query text the loop holds when it ends
    lastError: string, // the error of the last failed check ("" if none failed)
    tries: int,        // the counter's value when the loop ends
    checks: nat,       // calls of the check
    repairs: nat)      // calls of the repair oracle

  /** The most checks a loop may make: at least one, otherwise the distance from the counter to the bound. */
  function Budget(tries: int, stopAt: int): nat
  {
    if stopAt - tries > 1 then stopAt - tries else 1
  }

  /** One step of the candidate sequence: a failing query is replaced by its repair. */
  function Next(check: string -> Verdict, repair: (string, string) -> string, q: string): string
  {
    match check(q)
    case Pass => q
    case Fail(e) => repair(q, e)
  }

  /** The `k`-th query a loop checks when it starts from `q` (the 0-th is `q` itself). */
  function Candidate(check: string -> Verdict, repair: (string, string) -> string, q: string, k: nat): string
    decreases k
  {
    if k == 0 then q else Candidate(check, repair, Next(check, repair, q), k - 1)
  }

  /**
   * The fragment loop: `tries += 1; query = repair(query, error); if tries >= stopAt: give up`.
   * Each failure costs one check and one repair; the loop gives up holding the
   * repaired text it will never check.
   */
  function RepairFirst(check: string -> Verdict, repair: (string, string) -> string,
                       text: string, tries: int, stopAt: int): (a: Attempt)
    ensures a.tries == tries + a.repairs
    ensures a.checks == a.repairs + (if a.passed then 1 else 0)
    ensures 1 <= a.checks <= Budget(tries, stopAt)
    ensures a.passed ==> check(a.text) == Pass
    ensures !a.passed ==> a.repairs == Budget(tries, stopAt) && a.tries >= stopAt
    ensures a.passed && a.repairs > 0 ==> a.tries < stopAt
    decreases if stopAt > tries then stopAt - tries else 0
  {
    match check(text)
    case Pass => Attempt(true, text, "", tries, 1, 0)
    case Fail(e) =>
      var next := repair(text, e);
      if tries + 1 >= stopAt then Attempt(false, next, e, tries + 1, 1, 1)
      else
        var a := RepairFirst(check, repair, next, tries + 1, stopAt);
        a.(checks := a.checks + 1, repairs := a.repairs + 1)
  }

  /**
   * The composite loop: `tries += 1; if tries >= stopAt: give up; query = repair(query, error)`.
   * Each failure costs one check; every failure but the one that ends the loop
   * also costs one repair, so the loop gives up holding the text that last failed.
   */
  function TestFirst(check: string -> Verdict, repair: (string, string) -> string,
                     text: string, tries: int, stopAt: int): (a: Attempt)
    ensures a.repairs + 1 == a.checks
    ensures a.tries == tries + a.checks - (if a.passed then 1 else 0)
    ensures a.checks <= Budget(tries, stopAt)
    ensures a.passed ==> check(a.text) == Pass
    ensures !a.passed ==> check(a.text) == Fail(a.lastError)
    ensures !a.passed ==> a.checks == Budget(tries, stopAt) && a.tries >= stopAt
    ensures a.passed && a.repairs > 0 ==> a.tries < stopAt
    decreases if stopAt > tries then stopAt - tries else 0
  {
    match check(text)
    case Pass => Attempt(true, text, "", tries, 1, 0)
    case Fail(e) =>
      if tries + 1 >= stopAt then Attempt(false, text, e, tries + 1, 1, 0)
      else
        var a := TestFirst(check, repair, repair(text, e), tries + 1, stopAt);
        a.(checks := a.checks + 1, repairs := a.repairs + 1)
  }

  /**
   * The fragment loop checks the candidates `0, 1, ...` in order and stops at the
   * first that passes: every candidate before it failed, and it passes exactly when
   * some candidate within the budget passes. When it gives up it holds the
   * repair of its last failing candidate.
   */
  lemma {:induction false} RepairFirstTrace(check: string -> Verdict, repair: (string, string) -> string,
                                            text: string, tries: int, stopAt: int)
    ensures var a := RepairFirst(check, repair, text, tries, stopAt);
      && (forall j :: 0 <= j < a.repairs ==> check(Candidate(check, repair, text, j)).Fail?)
      && a.text == Candidate(check, repair, text, a.repairs)
      && (a.passed <==> exists k :: 0 <= k < Budget(tries, stopAt) && check(Candidate(check, repair, text, k)) == Pass)
    decreases if stopAt > tries then stopAt - tries else 0
  {
    var a := RepairFirst(check, repair, text, tries, stopAt);
    match check(text)
    case Pass =>
      assert check(Candidate(check, repair, text, 0)) == Pass;
    case Fail(e) =>
      var next := repair(text, e);
      assert Next(check, repair, text) == next;
      if tries + 1 >= stopAt {
        assert Candidate(check, repair, text, 1) == Candidate(check, repair, next, 0);
      } else {
        RepairFirstTrace(check, repair, next, tries + 1, stopAt);
        var b := RepairFirst(check, repair, next, tries + 1, stopAt);
        assert a.repairs == b.repairs + 1;
        forall j | 0 < j <= b.repairs + 1
          ensures Candidate(check, repair, text, j) == Candidate(check, repair, next, j - 1)
        {
        }
        if a.passed {
          var k := a.repairs;
          assert check(Candidate(check, repair, text, k)) == Pass;
        }
        if exists k :: 0 <= k < Budget(tries, stopAt) && check(Candidate(check, repair, text, k)) == Pass {
          var k :| 0 <= k < Budget(tries, stopAt) && check(Candidate(check, repair, text, k)) == Pass;
          assert k != 0;
          assert Candidate(check, repair, text, k) == Candidate(check, repair, next, k - 1);
        }
      }
  }

  /** The same for the composite loop, which gives up holding the last candidate it checked. */
  lemma {:induction false} TestFirstTrace(check: string -> Verdict, repair: (string, string) -> string,
                                          text: string, tries: int, stopAt: int)
    ensures var a := TestFirst(check, repair, text, tries, stopAt);
      && (forall j :: 0 <= j < a.repairs ==> check(Candidate(check, repair, text, j)).Fail?)
      && a.text == Candidate(check, repair, text, a.repairs)
      && (a.passed <==> exists k :: 0 <= k < Budget(tries, stopAt) && check(Candidate(check, repair, text, k)) == Pass)
    decreases if stopAt > tries then stopAt - tries else 0
  {
    var a := TestFirst(check, repair, text, tries, stopAt);
    match check(text)
    case Pass =>
      assert check(Candidate(check, repair, text, 0)) == Pass;
    case Fail(e) =>
      var next := repair(text, e);
      assert Next(check, repair, text) == next;
      if tries + 1 >= stopAt {
      } else {
        TestFirstTrace(check, repair, next, tries + 1, stopAt);
        var b := TestFirst(check, repair, next, tries + 1, stopAt);
        assert a.repairs == b.repairs + 1;
        forall j | 0 < j <= b.repairs + 1
          ensures Candidate(check, repair, text, j) == Candidate(check, repair, next, j - 1)
        {
        }
        forall j | 0 <= j < a.repairs
          ensures check(Candidate(check, repair, text, j)).Fail?
        {
          if j > 0 {
            assert Candidate(check, repair, text, j) == Candidate(check, repair, next, j - 1);
          }
        }
        if a.passed {
          var k := a.repairs;
          assert check(Candidate(check, repair, text, k)) == Pass;
        }
        if exists k :: 0 <= k < Budget(tries, stopAt) && check(Candidate(check, repair, text, k)) == Pass {
          var k :| 0 <= k < Budget(tries, stopAt) && check(Candidate(check, repair, text, k)) == Pass;
          assert k != 0;
          assert Candidate(check, repair, text, k) == Candidate(check, repair, next, k - 1);
        }
      }
  }
}
