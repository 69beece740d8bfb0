/**
 * The time-slot discipline of `forward_pass` and `backward_pass` in
 * brainstorm/layers/lstm_peephole.py, with the numerics abstracted away.
 *
 * A buffer over time declared with one context slot has `steps + 1` slots:
 * slots `0 .. steps-1` belong to the time steps and the last one is the
 * context slot, which Python's index `-1` reaches. A slot holds a `Term`
 * that records what was combined to produce it, so that the contracts can
 * say which slot each step read.
 */
module LstmTimeSlots {

  datatype Term =
    | Context            // whatever the context slot holds before the pass
    | Zero               // a slot cleared by `fill(…, 0.0)`
    | Input(t: nat)      // the input terms of step t (`dot_mm` of x_t, biases)
    | Delta(t: nat)      // the local delta terms of step t (output delta, gates)
    | Step(own: Term, prev: Term)  // own terms combined with a neighbouring slot

  /** Python's index `i` into a sequence of `slots` slots: a negative index
      counts from the end. */
  function Slot(i: int, slots: nat): (r: nat)
    requires -(slots as int) <= i < slots
    ensures r < slots
    ensures i >= 0 ==> r == i
    ensures i == -1 ==> r == slots - 1
  {
    if i < 0 then slots + i else i
  }

  /** The recurrent state at step t of the forward pass: step t combines its
      input terms with the state of step t-1, and step 0 with the context. */
  function ForwardState(t: nat, ctx: Term): Term
  {
    Step(Input(t), if t == 0 then ctx else ForwardState(t - 1, ctx))
  }

  /** The delta at step t of the backward pass over `steps` steps: step t
      combines its local terms with the delta of step t+1, and the last
      step with the zeroed context slot. */
  function BackwardState(t: nat, steps: nat): Term
    requires t < steps
    decreases steps - t
  {
    Step(Delta(t), if t + 1 == steps then Zero else BackwardState(t + 1, steps))
  }

  /** The own terms along the chain of slots a term was built from. */
  function Chain(x: Term): seq<Term>
  {
    match x
    case Step(own, prev) => [own] + Chain(prev)
    case _ => []
  }

  /** The slot content the chain starts from. */
  function Origin(x: Term): Term
  {
    match x
    case Step(_, prev) => Origin(prev)
    case _ => x
  }

  /** `forward_pass` on one recurrent buffer `a` (the output `y`, or the cell
      state `Ca`): the input terms are written into the time slots
      (`flatten_time(Za[:-1])`, never the context slot), then step t
      combines them with slot `t - 1` in Python's indexing, which is the
      context slot when t = 0, and writes slot t. */
  method ForwardPass(a: array<Term>, steps: nat)
    requires a.Length == steps + 1
    modifies a
    ensures a[steps] == old(a[steps])
    ensures forall t :: 0 <= t < steps ==> a[t] == Step(Input(t), a[Slot(t - 1, steps + 1)])
    ensures forall t :: 0 <= t < steps ==> a[t] == ForwardState(t, old(a[steps]))
  {
    ghost var ctx := a[steps];
    for t := 0 to steps
      invariant a[steps] == ctx
      invariant forall j :: 0 <= j < t ==> a[j] == Input(j)
    {
      a[t] := Input(t);
    }
    for t := 0 to steps
      invariant a[steps] == ctx
      invariant forall j :: 0 <= j < t ==> a[j] == Step(Input(j), a[Slot(j - 1, steps + 1)])
      invariant forall j :: t <= j < steps ==> a[j] == Input(j)
    {
      a[t] := Step(a[t], a[Slot(t - 1, steps + 1)]);
    }
    ForwardLinkedStates(a[..], steps);
  }

  /** A buffer whose every step is linked to the slot before it, as
      `ForwardPass` leaves it, holds the forward states. */
  lemma ForwardLinkedStates(s: seq<Term>, steps: nat)
    requires |s| == steps + 1
    requires forall t :: 0 <= t < steps ==> s[t] == Step(Input(t), s[Slot(t - 1, steps + 1)])
    ensures forall t :: 0 <= t < steps ==> s[t] == ForwardState(t, s[steps])
  {
    forall t | 0 <= t < steps
      ensures s[t] == ForwardState(t, s[steps])
    {
      ForwardLinkedState(s, steps, t);
    }
  }

  lemma {:induction false} ForwardLinkedState(s: seq<Term>, steps: nat, t: nat)
    requires |s| == steps + 1 && t < steps
    requires forall t :: 0 <= t < steps ==> s[t] == Step(Input(t), s[Slot(t - 1, steps + 1)])
    ensures s[t] == ForwardState(t, s[steps])
  {
    if t > 0 {
      ForwardLinkedState(s, steps, t - 1);
    }
  }

  /** `backward_pass` on the cell delta buffer `dCa`: it is zeroed, context
      slot included, then the walk goes from the last step down to step 0,
      and step t adds to its local terms the delta in slot `t + 1`, which is
      the zeroed context slot when t is the last step. */
  method BackwardPass(d: array<Term>, steps: nat)
    requires d.Length == steps + 1
    modifies d
    ensures d[steps] == Zero
    ensures forall t :: 0 <= t < steps ==> d[t] == Step(Delta(t), d[t + 1])
    ensures forall t :: 0 <= t < steps ==> d[t] == BackwardState(t, steps)
  {
    for i := 0 to d.Length
      invariant forall j :: 0 <= j < i ==> d[j] == Zero
    {
      d[i] := Zero;
    }
    var t: nat := steps;
    while t > 0
      invariant t <= steps && d[steps] == Zero
      invariant forall j :: 0 <= j < t ==> d[j] == Zero
      invariant forall j :: t <= j < steps ==> d[j] == Step(Delta(j), d[j + 1])
    {
      t := t - 1;
      d[t] := Step(Delta(t), d[t + 1]);
    }
    BackwardLinkedStates(d[..], steps);
  }

  /** A buffer whose every step is linked to the slot after it, with the
      context slot zero, as `BackwardPass` leaves it, holds the backward
      deltas. */
  lemma BackwardLinkedStates(s: seq<Term>, steps: nat)
    requires |s| == steps + 1 && s[steps] == Zero
    requires forall t :: 0 <= t < steps ==> s[t] == Step(Delta(t), s[t + 1])
    ensures forall t :: 0 <= t < steps ==> s[t] == BackwardState(t, steps)
  {
    forall t | 0 <= t < steps
      ensures s[t] == BackwardState(t, steps)
    {
      BackwardLinkedState(s, steps, t);
    }
  }

  lemma {:induction false} BackwardLinkedState(s: seq<Term>, steps: nat, t: nat)
    requires |s| == steps + 1 && s[steps] == Zero && t < steps
    requires forall t :: 0 <= t < steps ==> s[t] == Step(Delta(t), s[t + 1])
    ensures s[t] == BackwardState(t, steps)
    decreases steps - t
  {
    if t + 1 < steps {
      BackwardLinkedState(s, steps, t + 1);
    }
  }

  /** The forward state of step t is built from the inputs of steps t, t-1,
      …, 0, in that order, on top of the context. */
  lemma {:induction false} ForwardConsumesInputsInOrder(t: nat, ctx: Term)
    ensures Chain(ForwardState(t, ctx)) == seq(t + 1, i requires 0 <= i <= t => Input(t - i)) + Chain(ctx)
    ensures Origin(ForwardState(t, ctx)) == Origin(ctx)
  {
    var inputs := seq(t + 1, i requires 0 <= i <= t => Input(t - i));
    if t == 0 {
      assert inputs == [Input(0)];
    } else {
      ForwardConsumesInputsInOrder(t - 1, ctx);
      var earlier := seq(t, i requires 0 <= i < t => Input(t - 1 - i));
      assert inputs == [Input(t)] + earlier;
    }
  }

  /** The delta of step t is built from the local terms of steps t, t+1, …,
      steps-1, in that order, on top of the zeroed context slot. */
  lemma {:induction false} BackwardConsumesDeltasInOrder(t: nat, steps: nat)
    requires t < steps
    ensures Chain(BackwardState(t, steps)) == seq(steps - t, i requires 0 <= i < steps - t => Delta(t + i))
    ensures Origin(BackwardState(t, steps)) == Zero
    decreases steps - t
  {
    var deltas := seq(steps - t, i requires 0 <= i < steps - t => Delta(t + i));
    if t + 1 == steps {
      assert deltas == [Delta(t)];
    } else {
      BackwardConsumesDeltasInOrder(t + 1, steps);
      var later := seq(steps - t - 1, i requires 0 <= i < steps - t - 1 => Delta(t + 1 + i));
      assert deltas == [Delta(t)] + later;
    }
  }
}
