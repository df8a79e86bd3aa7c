/** Writing a list of things one after the other when any attempt may fail. */
module Faults {

  /** Which attempts fail, counted from the first. */
  type Oracle = nat -> bool

  /** How many of `n` attempts, the first being number `at`, succeed before one fails. */
  function Done(fails: Oracle, at: nat, n: nat): (k: nat)
    ensures k <= n
    ensures forall i :: at <= i < at + k ==> !fails(i)
    ensures k < n ==> fails(at + k)
    decreases n
  {
    if n == 0 || fails(at) then 0 else 1 + Done(fails, at + 1, n - 1)
  }

  /** The number of the next attempt, after stopping at the first failure. */
  function After(fails: Oracle, at: nat, n: nat): nat
  {
    var k := Done(fails, at, n);
    if k < n then at + k + 1 else at + n
  }

  /** The writes among `ws` that happen. */
  function Stage<T>(fails: Oracle, at: nat, ws: seq<T>): seq<T>
  {
    ws[..Done(fails, at, |ws|)]
  }

  lemma StageIsPrefix<T>(fails: Oracle, at: nat, ws: seq<T>)
    ensures Stage(fails, at, ws) <= ws
    ensures Done(fails, at, |ws|) == |ws| ==> Stage(fails, at, ws) == ws
  {
    hide Done;
  }

  /** There is only one such number. */
  lemma DoneIs(fails: Oracle, at: nat, n: nat, k: nat)
    requires k <= n && (forall i :: at <= i < at + k ==> !fails(i)) && (k < n ==> fails(at + k))
    ensures Done(fails, at, n) == k
  {
    hide Done;
    var d := Done(fails, at, n);
  }

  /** Two lists in a row, stopping at the first failure in either. */
  lemma StageAppend<T>(fails: Oracle, at: nat, a: seq<T>, b: seq<T>)
    ensures Done(fails, at, |a + b|)
            == if Done(fails, at, |a|) < |a| then Done(fails, at, |a|) else |a| + Done(fails, at + |a|, |b|)
    ensures Stage(fails, at, a + b)
            == if Done(fails, at, |a|) < |a| then Stage(fails, at, a) else a + Stage(fails, at + |a|, b)
  {
    hide Done;
    var d := Done(fails, at, |a|);
    if d < |a| {
      DoneIs(fails, at, |a + b|, d);
      assert (a + b)[..d] == a[..d];
    } else {
      var e := Done(fails, at + |a|, |b|);
      DoneIs(fails, at, |a + b|, |a| + e);
      assert (a + b)[..|a| + e] == a + b[..e];
    }
  }

  /** Going on with the second list after a failure in the first adds to what is written. */
  lemma StageContinues<T>(fails: Oracle, at: nat, a: seq<T>, b: seq<T>)
    ensures Stage(fails, at, a + b) <= Stage(fails, at, a) + Stage(fails, After(fails, at, |a|), b)
    ensures Done(fails, at, |a + b|) == |a + b| ==>
              Stage(fails, at, a) + Stage(fails, After(fails, at, |a|), b) == a + b
  {
    hide Done;
    StageAppend(fails, at, a, b);
  }

  /** None of the first `n` attempts fails. */
  ghost predicate Clear(fails: Oracle, at: nat, n: nat)
  {
    forall i :: at <= i < at + n ==> !fails(i)
  }

  /** The attempt after these is the first that fails. */
  ghost predicate StopsAt(fails: Oracle, at: nat, n: nat)
  {
    Clear(fails, at, n) && fails(at + n)
  }

  /** How far a list gets, in terms of the attempts. */
  lemma DoneMeans(fails: Oracle, at: nat, n: nat, m: nat)
    requires m <= n
    ensures Done(fails, at, n) >= m <==> Clear(fails, at, m)
    ensures m < n ==> (Done(fails, at, n) == m <==> StopsAt(fails, at, m))
  {
    hide Done;
    var k := Done(fails, at, n);
    if m < n && StopsAt(fails, at, m) {
      DoneIs(fails, at, n, m);
    }
  }
}
