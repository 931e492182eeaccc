/** The protocol model shared by the planner, the model checker and the engine:
    the parts of `Protocol`, `Step` and `Invariant` that scheduling depends on. */
module Protocols {

  datatype Option<+T> = None | Some(value: T)

  /** A step's `when` attribute: absent, a boolean literal, or anything that is
      only resolved at run time. */
  datatype Condition = Always | Literal(enabled: bool) | Dynamic

  datatype Step = Step(
    name: string,
    role: string,
    dependsOn: seq<string>,
    when: Condition,
    fromState: Option<string>,
    toState: Option<string>,
    loopCount: nat,
    retry: nat,
    retransmit: nat,
    timerRetransmit: nat,
    receives: bool)

  datatype Invariant =
    | NeverState(name: string, role: string, state: string)
    | StateImplies(name: string, role: string, state: string, impliesRole: string, impliesState: string)
    | EventuallyState(name: string, role: string, state: string)

  datatype Protocol = Protocol(name: string, steps: seq<Step>, invariants: seq<Invariant>)

  /** Every role's state before its first step. */
  const INITIAL_STATE := "initial"
}
