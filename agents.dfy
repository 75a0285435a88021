/**
 Agents of masdcop/agent.py: the per-agent search state and the agent that owns
 one variable and talks through the shared pigeonhole.
 */
module Agents {
  import opened Values
  import opened Domain
  import opened Mailbox

  /** The search state of one agent. Python's `None` for the two paths is the
      empty path here. */
  class State<L, V> {
    var upperBound: Bound
    var counter: nat
    var newPath: seq<PathElement<L, V>>
    var previousPath: seq<PathElement<L, V>>

    constructor ()
      ensures upperBound == Inf && counter == 0 && newPath == [] && previousPath == []
    {
      upperBound := Inf;
      counter := 0;
      newPath := [];
      previousPath := [];
    }
  }

  class SingleVariableAgent<L(==), V> {
    const agentLabel: L
    const state: State<L, V>
    const variable: Variable<L, V>
    /** The class-level dictionary every agent shares. */
    const network: PigeonHole<L, V>
    var payload: Option<Payload<L, V>>

    constructor (agentLabel: L, values: seq<V>, kind: Kind, network: PigeonHole<L, V>)
      ensures this.agentLabel == agentLabel && this.network == network && payload == None
      ensures fresh(state) && fresh(variable)
      ensures state.upperBound == Inf && state.counter == 0
      ensures state.newPath == [] && state.previousPath == []
      ensures variable.varLabel == agentLabel && variable.kind == kind && variable.values == values
      ensures variable.i == 0 && variable.d == Undrawn && variable.Valid()
    {
      this.agentLabel := agentLabel;
      this.network := network;
      state := new State();
      variable := new Variable(agentLabel, values, kind);
      payload := None;
    }

    /** Sends with this agent's own label as the sender. */
    method Send(recipient: L, message: Message<L, V>)
      modifies network
      ensures network.slots == old(network.slots)[recipient := Payload(agentLabel, message)]
      ensures network.Receive(recipient) == Ok(Payload(agentLabel, message))
    {
      network.Send(agentLabel, recipient, message);
    }

    /** Takes the envelope stored under this agent's own label into `payload`;
        on a missing entry the lookup fails and `payload` keeps its value. */
    method Receive() returns (r: Result<Payload<L, V>>)
      modifies this
      ensures r == network.Receive(agentLabel)
      ensures r.Ok? ==> payload == Some(network.slots[agentLabel])
      ensures r.Err? ==> r.fault == MailboxEmpty && payload == old(payload)
    {
      r := network.Receive(agentLabel);
      if r.Ok? {
        payload := Some(r.value);
      }
    }
  }
}
