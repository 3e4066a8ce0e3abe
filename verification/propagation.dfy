/** The change propagator of both nodes: every observed value becomes one
    attribute-set request on the endpoint, and a rejected set is caught and
    logged instead of reaching the caller, so later values still go out. */
module Propagation {

  /** One call of the propagator: the value to set and whether the endpoint
      accepted that set. */
  datatype Update<T> = Update(value: T, accepted: bool)

  /** After a run of calls: the set requests issued, in call order; the value
      the endpoint's attribute holds; how many failures were logged. */
  datatype Outcome<T> = Outcome(requests: seq<T>, attribute: T, logged: nat)

  /** Pairs each value with the endpoint's answer to its set: `accepts(i)`
      says whether the i-th set was accepted. */
  function Updates<T>(values: seq<T>, accepts: nat -> bool): (u: seq<Update<T>>)
    ensures |u| == |values|
    ensures forall i :: 0 <= i < |u| ==> u[i] == Update(values[i], accepts(i))
  {
    seq(|values|, i requires 0 <= i < |values| => Update(values[i], accepts(i)))
  }

  /** Position of the last accepted update, or -1 when none was accepted. */
  function LastAccepted<T>(updates: seq<Update<T>>): (k: int)
    ensures -1 <= k < |updates|
    ensures k >= 0 ==> updates[k].accepted
    ensures forall j :: k < j < |updates| ==> !updates[j].accepted
  {
    if updates == [] then -1
    else if updates[|updates| - 1].accepted then |updates| - 1
    else LastAccepted(updates[..|updates| - 1])
  }

  /** Folds the calls in order from an attribute holding `initial`. Every call
      issues its set, and the endpoint's attribute ends at the value of the last
      accepted set, or still at `initial` when none was accepted. A call never
      fails towards its caller; the result type has no failure case. */
  function Propagate<T>(initial: T, updates: seq<Update<T>>): (o: Outcome<T>)
    ensures |o.requests| == |updates|
    ensures forall i :: 0 <= i < |updates| ==> o.requests[i] == updates[i].value
    ensures o.logged <= |updates|
    ensures var k := LastAccepted(updates); o.attribute == if k < 0 then initial else updates[k].value
  {
    if updates == [] then Outcome([], initial, 0)
    else
      var front := updates[..|updates| - 1];
      var prev := Propagate(initial, front);
      var u := updates[|updates| - 1];
      assert forall i :: 0 <= i < |front| ==> front[i] == updates[i];
      Outcome(prev.requests + [u.value],
              if u.accepted then u.value else prev.attribute,
              if u.accepted then prev.logged else prev.logged + 1)
  }

  /** One error is logged per rejected set and none otherwise: the log is
      empty exactly when every set was accepted. */
  lemma {:induction false} LoggedIffRejected<T>(initial: T, updates: seq<Update<T>>)
    ensures Propagate(initial, updates).logged == 0 <==> forall i :: 0 <= i < |updates| ==> updates[i].accepted
  {
    if updates != [] {
      var front := updates[..|updates| - 1];
      var last := updates[|updates| - 1];
      LoggedIffRejected(initial, front);
      assert forall i :: 0 <= i < |front| ==> front[i] == updates[i];
      var o := Propagate(initial, updates);
      var prev := Propagate(initial, front);
      if last.accepted {
        assert o.logged == prev.logged;
      } else {
        assert o.logged == prev.logged + 1;
        assert !updates[|updates| - 1].accepted;
      }
    }
  }

  /** A failed set for observation k does not stop observation k+1: its set is
      still issued and, once accepted, the attribute holds its value. */
  lemma FailureDoesNotBlockNext<T>(initial: T, updates: seq<Update<T>>, k: nat)
    requires k + 1 < |updates|
    requires !updates[k].accepted
    ensures Propagate(initial, updates[..k + 2]).requests[k + 1] == updates[k + 1].value
    ensures updates[k + 1].accepted ==> Propagate(initial, updates[..k + 2]).attribute == updates[k + 1].value
  {
    var p := updates[..k + 2];
    assert p[k + 1] == updates[k + 1];
  }

  /** Eventual convergence: when the last set is accepted the attribute holds
      the last observed value, whatever failed before. */
  lemma LastAcceptedWins<T>(initial: T, updates: seq<Update<T>>)
    requires updates != [] && updates[|updates| - 1].accepted
    ensures Propagate(initial, updates).attribute == updates[|updates| - 1].value
  {
  }
}
