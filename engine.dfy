/**
 The `SyncBB` class of masdcop/algo.py: the engine that drives agents through
 the synchronous branch-and-bound protocol. Each method is proved to compute
 the corresponding function of module BranchAndBound on the agent's state and
 the shared state.
 */
module Engine {
  import opened Values
  import opened Agents
  import opened Order
  import opened BranchAndBound

  class SyncBB<L(==), V> {
    /** The constraint predicate injected by the environment. */
    const accept: Checker<L, V>
    const tree: PseudoTree<L, V>
    const maxCost: int
    var terminate: bool
    var sol: Option<Solution<L, V>>

    constructor (accept: Checker<L, V>, tree: PseudoTree<L, V>, maxCost: int)
      ensures this.accept == accept && this.tree == tree && this.maxCost == maxCost
      ensures !terminate && sol == None
    {
      this.accept := accept;
      this.tree := tree;
      this.maxCost := maxCost;
      terminate := false;
      sol := None;
    }

    function CtxOf(agent: SingleVariableAgent<L, V>): Ctx<L, V> {
      Ctx(accept, agent.variable.varLabel, agent.variable.kind)
    }

    /** The agent's state as a value. */
    ghost function ViewOf(agent: SingleVariableAgent<L, V>): View<L, V>
      reads agent, agent.variable, agent.state
    {
      View(agent.variable.values, agent.variable.i, agent.variable.d,
           agent.state.upperBound, agent.state.counter,
           agent.state.newPath, agent.state.previousPath, agent.payload)
    }

    /** The order's cursor, the mailbox and the outcome as a value. */
    ghost function SharedOf(agent: SingleVariableAgent<L, V>): Shared<L, V>
      reads this, tree, agent.network
    {
      Shared(tree.cursor, agent.network.slots, terminate, sol)
    }

    /** `check(path, agent)` for the agent's current value. */
    method Check(path: seq<PathElement<L, V>>, agent: SingleVariableAgent<L, V>) returns (ok: bool)
      modifies agent.state
      ensures var s := Scan(CtxOf(agent), agent.variable.d, agent.state.upperBound, path, old(agent.state.counter));
        && ok == s.ok
        && agent.state.counter == s.counter
        && agent.state.newPath == old(agent.state.newPath) + s.appended
      ensures agent.state.upperBound == old(agent.state.upperBound)
      ensures agent.state.previousPath == old(agent.state.previousPath)
      decreases |path|
    {
      ghost var full := Scan(CtxOf(agent), agent.variable.d, agent.state.upperBound, path, agent.state.counter);
      if path == [] {
        agent.state.newPath := agent.state.newPath + [PathElement(agent.variable.varLabel, agent.variable.d, 0)];
        return true;
      }
      var prev := path[0];
      if !accept(prev.varLabel, prev.value, agent.variable.varLabel, agent.variable.d) {
        agent.state.counter := agent.state.counter + 1;
        var ubound := agent.state.upperBound;
        if Reaches(agent.state.counter, ubound) || Reaches(prev.violations + 1, ubound) {
          return false;
        }
        agent.state.newPath := agent.state.newPath + [PathElement(prev.varLabel, prev.value, prev.violations + 1)];
      } else {
        agent.state.newPath := agent.state.newPath + [PathElement(prev.varLabel, prev.value, prev.violations)];
      }
      ghost var before := agent.state.newPath;
      ghost var head := before[|before| - 1];
      ghost var rest := Scan(CtxOf(agent), agent.variable.d, agent.state.upperBound, path[1..], agent.state.counter);
      assert before == old(agent.state.newPath) + [head];
      assert full == Scanned(rest.ok, rest.counter, [head] + rest.appended);
      ok := Check(path[1..], agent);
      assert agent.state.newPath == before + rest.appended;
      assert old(agent.state.newPath) + [head] + rest.appended == old(agent.state.newPath) + ([head] + rest.appended);
    }

    /** `getNext(agent)`: the next value of the agent's domain that passes
        `check` against its previous path, or the sentinel. */
    method GetNext(agent: SingleVariableAgent<L, V>) returns (r: Value<V>)
      requires agent.variable.Valid()
      modifies agent.variable, agent.state
      ensures agent.variable.Valid()
      ensures (ViewOf(agent), r) == Draw(CtxOf(agent), old(ViewOf(agent)))
      decreases |agent.variable.values| - agent.variable.i
    {
      ghost var ctx := CtxOf(agent);
      ghost var a0 := ViewOf(agent);
      var d := agent.variable.Next();
      if d.Exhausted? {
        return Exhausted;
      }
      agent.state.newPath := [];
      agent.state.counter := 0;
      ghost var s := Scan(ctx, Val(a0.values[a0.cursor]), a0.ub, a0.previousPath, 0);
      var ok := Check(agent.state.previousPath, agent);
      assert ok == s.ok && agent.state.newPath == s.appended && agent.state.counter == s.counter;
      if ok {
        r := d;
      } else {
        ghost var mid := ViewOf(agent);
        assert Search(ctx, a0.ub, a0.previousPath, a0.values, a0.cursor, a0.newPath, a0.counter)
            == Search(ctx, mid.ub, mid.previousPath, mid.values, mid.cursor, mid.newPath, mid.counter);
        r := GetNext(agent);
      }
    }

    /** `sendToNext(agent)`: move the order forward and, if there is an agent
        there, send it a copy of the proposed path and the bound. */
    method SendToNext(agent: SingleVariableAgent<L, V>)
      requires tree.Valid() && tree.cursor != |tree.agents| - 1
      modifies tree, agent.network
      ensures tree.Valid()
      ensures SharedOf(agent)
           == Forward(tree, old(SharedOf(agent)), agent.agentLabel,
                      Message(agent.state.newPath, agent.state.upperBound))
    {
      var nextAgent := tree.Next();
      if nextAgent.Some? {
        agent.Send(nextAgent.value.agentLabel, Message(agent.state.newPath, agent.state.upperBound));
      }
    }

    /** `sendToPrevious(agent)`: move the order back and, if there is an
        agent there, send it the previous path and the bound. */
    method SendToPrevious(agent: SingleVariableAgent<L, V>)
      requires tree.Valid()
      modifies tree, agent.network
      ensures tree.Valid()
      ensures SharedOf(agent)
           == Backward(tree, old(SharedOf(agent)), agent.agentLabel,
                       Message(agent.state.previousPath, agent.state.upperBound))
    {
      var prevAgent := tree.Previous();
      if prevAgent.Some? {
        agent.Send(prevAgent.value.agentLabel, Message(agent.state.previousPath, agent.state.upperBound));
      }
    }

    /** The last agent's loop in `sendMessage`: draw candidates, stop with
        `terminate` at the first whose cost is within `maxCost`, and otherwise
        record each in `sol` until the domain runs out. Returns the last cost
        computed, 0 when no candidate was drawn. */
    method CostCandidates(agent: SingleVariableAgent<L, V>) returns (cost: int)
      requires agent.variable.Valid()
      modifies this, agent.variable, agent.state
      ensures agent.variable.Valid()
      ensures var first := Draw(CtxOf(agent), old(ViewOf(agent)));
        var w := Sweep(CtxOf(agent), maxCost, first.0, first.1, old(sol), 0);
        && ViewOf(agent) == w.last && sol == w.sol && cost == w.cost
        && terminate == (old(terminate) || w.terminated)
    {
      ghost var ctx := CtxOf(agent);
      cost := 0;
      var nextToNext := GetNext(agent);
      ghost var first := ViewOf(agent);
      ghost var firstValue := nextToNext;
      ghost var found := false;
      ghost var goal := Sweep(ctx, maxCost, first, firstValue, old(sol), 0);
      while !nextToNext.Exhausted?
        invariant agent.variable.Valid()
        invariant SweepReady(ViewOf(agent), nextToNext)
        invariant goal == Sweep(ctx, maxCost, ViewOf(agent), nextToNext, sol, cost)
        invariant !found && terminate == old(terminate)
        decreases |agent.variable.values| - agent.variable.i, if nextToNext.Val? then 1 else 0
      {
        ghost var here := ViewOf(agent);
        SweepTurn(ctx, maxCost, here, nextToNext, sol, cost);
        var bestPath := agent.state.newPath;
        cost := Cost(bestPath);
        if cost <= maxCost {
          terminate := true;
          found := true;
          break;
        }
        sol := Some(Solution(bestPath, cost));
        ghost var drawn := Draw(ctx, here);
        nextToNext := GetNext(agent);
        assert (ViewOf(agent), nextToNext) == drawn;
      }
      assert goal == Swept(found, sol, cost, ViewOf(agent));
    }

    /** `sendMessage(agent)`. */
    method SendMessage(agent: SingleVariableAgent<L, V>)
      requires agent in tree.agents && agent.variable.Valid() && tree.Valid()
      requires !agent.variable.d.Exhausted? && !tree.IsLast(agent) ==> tree.cursor != |tree.agents| - 1
      modifies this, tree, agent.network, agent.variable, agent.state
      ensures agent.variable.Valid() && tree.Valid()
      ensures (ViewOf(agent), SharedOf(agent))
           == SendMessageSpec(CtxOf(agent), maxCost, tree, agent, old(ViewOf(agent)), old(SharedOf(agent)))
    {
      if !agent.variable.d.Exhausted? {
        if tree.IsLast(agent) {
          var cost := CostCandidates(agent);
          agent.state.upperBound := Fin(cost);
          SendToPrevious(agent);
        } else {
          SendToNext(agent);
        }
      } else if tree.IndexOf(agent) == 0 {
        terminate := true;
      } else {
        SendToPrevious(agent);
      }
    }

    /** `receive(agent)`: take the envelope addressed to the agent and act on
        it; the faults stand for the exceptions Python would raise. */
    method Receive(agent: SingleVariableAgent<L, V>) returns (fault: Option<Fault>)
      requires agent in tree.agents && agent.variable.Valid()
      modifies agent, agent.variable, agent.state
      ensures agent.variable.Valid()
      ensures (ViewOf(agent), fault)
           == ReceiveSpec(CtxOf(agent), tree, agent, old(ViewOf(agent)), agent.network.slots)
    {
      var got := agent.Receive();
      if got.Err? {
        return Some(MailboxEmpty);
      }
      var payload := got.value;
      var sender := tree.GetAgent(payload.sender);
      if sender.None? {
        return Some(UnknownSender);
      }
      if tree.IsParent(agent, sender.value) {
        if payload.message.path == [] {
          return Some(EmptyPath);
        }
        var tail := payload.message.path[|payload.message.path| - 1];
        agent.state.upperBound := payload.message.upperBound;
        var d := GetNext(agent);
        if agent.state.newPath != [] {
          agent.state.newPath := agent.state.newPath[..|agent.state.newPath| - 1];
        }
        agent.state.newPath := agent.state.newPath + [PathElement(agent.variable.varLabel, d, tail.violations)];
      } else {
        agent.state.previousPath := payload.message.path;
        agent.state.upperBound := payload.message.upperBound;
        var d := GetNext(agent);
      }
      fault := None;
    }

    /** `initiate(agent)`: draw the agent's first value and send. */
    method Initiate(agent: SingleVariableAgent<L, V>)
      requires agent in tree.agents && agent.variable.Valid() && tree.Valid()
      requires !tree.IsLast(agent) ==> tree.cursor != |tree.agents| - 1
      modifies this, tree, agent.network, agent.variable, agent.state
      ensures agent.variable.Valid() && tree.Valid()
      ensures (ViewOf(agent), SharedOf(agent))
           == InitiateSpec(CtxOf(agent), maxCost, tree, agent, old(ViewOf(agent)), old(SharedOf(agent)))
    {
      var d := GetNext(agent);
      SendMessage(agent);
    }
  }
}
