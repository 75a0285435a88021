/**
 Values shared by every part of the SyncBB model: the domain-value sentinel,
 the upper bound (which starts at infinity), path elements, messages and the
 mailbox envelope, and the faults that abort a protocol step.
 */
module Values {

  datatype Option<T> = None | Some(value: T)

  /** What a variable holds or a cursor yields: nothing drawn yet (Python's
      `None`), the end-of-domain sentinel (the string "exhausted"), or a value. */
  datatype Value<V> = Undrawn | Exhausted | Val(v: V)

  /** An upper bound: `math.inf` or a finite integer. */
  datatype Bound = Inf | Fin(n: int)

  /** `x >= bound` as Python evaluates it: nothing reaches infinity. */
  predicate Reaches(x: int, bound: Bound) {
    bound.Fin? && x >= bound.n
  }

  /** One agent's contribution to a path: its variable label, its value and the number
      of violated constraints charged to it so far. */
  datatype PathElement<L, V> = PathElement(varLabel: L, value: Value<V>, violations: nat)

  /** The injected constraint predicate: true when every constraint between the
      two (label, value) assignments is satisfied. */
  type Checker<!L, !V> = (L, Value<V>, L, Value<V>) -> bool

  /** The message an agent passes along the order. */
  datatype Message<L, V> = Message(path: seq<PathElement<L, V>>, upperBound: Bound)

  /** The mailbox envelope: who sent which message. */
  datatype Payload<L, V> = Payload(sender: L, message: Message<L, V>)

  /** A recorded candidate: a complete path and its cost. */
  datatype Solution<L, V> = Solution(path: seq<PathElement<L, V>>, cost: int)

  /** Failures that abort a step. MailboxEmpty is a dictionary KeyError,
      UnknownSender the ValueError of `list.index(None)`, EmptyPath the
      IndexError of `path[-1]`, and TypeError a call Python cannot bind. */
  datatype Fault = MailboxEmpty | UnknownSender | EmptyPath | TypeError

  datatype Result<T> = Ok(value: T) | Err(fault: Fault)
}
