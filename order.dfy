/**
 The linear agent order (`PseudoTree` of masdcop/algo.py): a fixed sequence of
 agents and a traversal cursor that starts before the first agent.
 */
module Order {
  import opened Values
  import opened Agents

  /** The position of the first occurrence of `a` in `agents` (`list.index`). */
  function IndexIn<A(==)>(agents: seq<A>, a: A): (k: nat)
    requires a in agents
    ensures k < |agents| && agents[k] == a
    ensures forall j :: 0 <= j < k ==> agents[j] != a
  {
    if agents[0] == a then 0 else 1 + IndexIn(agents[1..], a)
  }

  /** The first agent carrying `wanted` at position `from` or later. */
  function FindFrom<L(==), V>(agents: seq<SingleVariableAgent<L, V>>, wanted: L, from: nat): (r: Option<nat>)
    requires from <= |agents|
    ensures r.Some? ==> from <= r.value < |agents| && agents[r.value].agentLabel == wanted
    ensures r.Some? ==> forall j :: from <= j < r.value ==> agents[j].agentLabel != wanted
    ensures r.None? ==> forall j :: from <= j < |agents| ==> agents[j].agentLabel != wanted
    decreases |agents| - from
  {
    if from == |agents| then None
    else if agents[from].agentLabel == wanted then Some(from)
    else FindFrom(agents, wanted, from + 1)
  }

  class PseudoTree<L(==), V> {
    const agents: seq<SingleVariableAgent<L, V>>
    var cursor: int

    ghost predicate Valid()
      reads this
    {
      -1 <= cursor <= |agents|
    }

    constructor (agents: seq<SingleVariableAgent<L, V>>)
      ensures this.agents == agents && cursor == -1 && Valid()
    {
      this.agents := agents;
      cursor := -1;
    }

    function IndexOf(a: SingleVariableAgent<L, V>): (k: nat)
      requires a in agents
      ensures k < |agents| && agents[k] == a
      ensures forall j :: 0 <= j < k ==> agents[j] != a
    {
      IndexIn(agents, a)
    }

    /** The successor of `a` in the order, or None for the agent in last place. */
    function NextTo(a: SingleVariableAgent<L, V>): (r: Option<SingleVariableAgent<L, V>>)
      requires a in agents
      ensures r.None? <==> IndexOf(a) == |agents| - 1
      ensures r.Some? ==> r.value == agents[IndexOf(a) + 1]
    {
      var index := IndexOf(a) + 1;
      if index < |agents| then Some(agents[index]) else None
    }

    /** `p` comes strictly before `c` in the order. */
    predicate IsParent(p: SingleVariableAgent<L, V>, c: SingleVariableAgent<L, V>)
      requires p in agents && c in agents
      ensures IsParent(p, c) ==> p != c
    {
      IndexOf(p) < IndexOf(c)
    }

    /** Away from the last agent, `hasNext` holds exactly when `next` moves
        to an agent; on the last agent it holds although no agent follows. */
    function HasNext(): bool
      reads this
      ensures Valid() && cursor != |agents| - 1 ==> (HasNext() <==> NextTarget(cursor).Some?)
      ensures cursor == |agents| - 1 ==> HasNext()
    {
      cursor < |agents|
    }

    /** The agent `next()` moves to from cursor position `c`, if any. */
    function NextTarget(c: int): (r: Option<SingleVariableAgent<L, V>>)
      requires -1 <= c <= |agents| && c != |agents| - 1
      ensures r.Some? <==> c < |agents|
      ensures r.Some? ==> r.value == agents[c + 1]
    {
      if c < |agents| then Some(agents[c + 1]) else None
    }

    /** The agent `previous()` moves to from cursor position `c`, if any. */
    function PreviousTarget(c: int): (r: Option<SingleVariableAgent<L, V>>)
      requires c <= |agents|
      ensures r.Some? <==> c > 0
      ensures r.Some? ==> r.value == agents[c - 1]
    {
      if c > 0 then Some(agents[c - 1]) else None
    }

    /** Python's `agents[self._i + 1]` fails when the cursor is on the last
        agent; callers never advance from there. */
    method Next() returns (r: Option<SingleVariableAgent<L, V>>)
      requires Valid() && cursor != |agents| - 1
      modifies this
      ensures Valid()
      ensures old(cursor) < |agents| ==> cursor == old(cursor) + 1 && r == Some(agents[cursor])
      ensures old(cursor) == |agents| ==> cursor == old(cursor) && r == None
      ensures r == NextTarget(old(cursor))
    {
      if cursor < |agents| {
        cursor := cursor + 1;
        r := Some(agents[cursor]);
      } else {
        r := None;
      }
    }

    method Previous() returns (r: Option<SingleVariableAgent<L, V>>)
      requires Valid()
      modifies this
      ensures Valid()
      ensures old(cursor) > 0 ==> cursor == old(cursor) - 1 && r == Some(agents[cursor])
      ensures old(cursor) <= 0 ==> cursor == old(cursor) && r == None
      ensures r == PreviousTarget(old(cursor))
    {
      if cursor > 0 {
        cursor := cursor - 1;
        r := Some(agents[cursor]);
      } else {
        r := None;
      }
    }

    /** The first agent whose label is `wanted`, or None. */
    function GetAgent(wanted: L): (r: Option<SingleVariableAgent<L, V>>)
      ensures r.Some? ==> r.value in agents && r.value.agentLabel == wanted
      ensures r.Some? ==> forall j :: 0 <= j < IndexOf(r.value) ==> agents[j].agentLabel != wanted
      ensures r.None? <==> forall a :: a in agents ==> a.agentLabel != wanted
    {
      var k := FindFrom(agents, wanted, 0);
      if k.Some? then Some(agents[k.value]) else None
    }

    predicate IsLast(a: SingleVariableAgent<L, V>)
      requires |agents| > 0
      ensures IsLast(a) ==> a in agents
    {
      agents[|agents| - 1] == a
    }

    function GetLast(): (r: SingleVariableAgent<L, V>)
      requires |agents| > 0
      ensures r in agents && IsLast(r)
    {
      agents[|agents| - 1]
    }

    /** `agents[self._i]`; before the first `next()` the cursor is -1, which
        Python reads as the last agent. */
    function GetCurrentAgent(): (r: SingleVariableAgent<L, V>)
      reads this
      requires Valid() && |agents| > 0 && cursor < |agents|
      ensures r in agents
      ensures cursor == -1 ==> IsLast(r)
      ensures cursor >= 0 ==> r == agents[cursor]
    {
      if cursor == -1 then agents[|agents| - 1] else agents[cursor]
    }
  }

  /** Parenthood is a strict order: no agent is its own parent, and a parent
      of a parent is a parent. */
  lemma IsParentIsStrictOrder<L, V>(t: PseudoTree<L, V>, a: SingleVariableAgent<L, V>,
                                         b: SingleVariableAgent<L, V>, c: SingleVariableAgent<L, V>)
    requires a in t.agents && b in t.agents && c in t.agents
    ensures !t.IsParent(a, a)
    ensures t.IsParent(a, b) && t.IsParent(b, c) ==> t.IsParent(a, c)
    ensures t.IsParent(a, b) ==> !t.IsParent(b, a)
  {
  }

  /** With distinct agents, `nextTo` answers None exactly for the last agent,
      and the agent it names has the given agent as its predecessor. */
  lemma NextToNoneIffLast<L, V>(t: PseudoTree<L, V>, a: SingleVariableAgent<L, V>)
    requires a in t.agents
    requires forall i, j :: 0 <= i < j < |t.agents| ==> t.agents[i] != t.agents[j]
    ensures t.NextTo(a).None? <==> t.IsLast(a)
    ensures t.NextTo(a).Some? ==> t.IndexOf(t.NextTo(a).value) == t.IndexOf(a) + 1
  {
  }

  /** Stepping back and then forward again returns the cursor to where it was
      and names the same agent. */
  lemma PreviousThenNext<L, V>(t: PseudoTree<L, V>, c: int)
    requires 0 < c < |t.agents|
    ensures t.PreviousTarget(c) == Some(t.agents[c - 1])
    ensures t.NextTarget(c - 1) == Some(t.agents[c])
  {
  }
}
