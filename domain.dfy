/**
 The domain cursor of a DCOP variable. The repository has two variants of
 `Variable.next`: the one in masdcop/algo.py writes the exhausted sentinel into
 the current value `d`, the one in masdcop/agent.py leaves `d` at the last real
 value. One class models both, selected by its `kind`.
 */
module Domain {
  import opened Values

  datatype Kind = MarksExhaustion | KeepsLastValue

  /** The value `next()` yields at cursor position `i`. */
  function Peek<V>(values: seq<V>, i: nat): Value<V> {
    if i < |values| then Val(values[i]) else Exhausted
  }

  /** The cursor position after `next()` at position `i`. */
  function Advance<V>(values: seq<V>, i: nat): nat {
    if i < |values| then i + 1 else i
  }

  /** The current value `d` after `next()` at position `i` when it was `d`. */
  function Current<V>(kind: Kind, values: seq<V>, i: nat, d: Value<V>): Value<V> {
    if i < |values| then Val(values[i])
    else if kind == MarksExhaustion then Exhausted
    else d
  }

  /** The values yielded by `n` consecutive calls of `next()` from position `i`. */
  function Replay<V>(values: seq<V>, i: nat, n: nat): seq<Value<V>>
    decreases n
  {
    if n == 0 then [] else [Peek(values, i)] + Replay(values, Advance(values, i), n - 1)
  }

  /** From any position, the k-th call yields the element k places further on,
      or the sentinel past the end. */
  lemma {:induction false} ReplayFrom<V>(values: seq<V>, i: nat, n: nat)
    requires i <= |values|
    ensures |Replay(values, i, n)| == n
    ensures forall k :: 0 <= k < n ==>
      Replay(values, i, n)[k] == (if i + k < |values| then Val(values[i + k]) else Exhausted)
    decreases n
  {
    if n > 0 {
      ReplayFrom(values, Advance(values, i), n - 1);
      forall k | 0 <= k < n
        ensures Replay(values, i, n)[k] == (if i + k < |values| then Val(values[i + k]) else Exhausted)
      {
        if k > 0 {
          assert Replay(values, i, n)[k] == Replay(values, Advance(values, i), n - 1)[k - 1];
        }
      }
    }
  }

  /** After `reset()`, `n` calls of `next()` yield the domain in order, each
      element once, followed by the sentinel on every later call. */
  lemma ReplayAfterReset<V>(values: seq<V>, n: nat)
    ensures |Replay(values, 0, n)| == n
    ensures forall k :: 0 <= k < n ==>
      Replay(values, 0, n)[k] == (if k < |values| then Val(values[k]) else Exhausted)
    ensures n <= |values| ==> forall k :: 0 <= k < n ==> Replay(values, 0, n)[k] == Val(values[k])
  {
    ReplayFrom(values, 0, n);
  }

  /** At the end of the domain `next()` is idempotent: the cursor stays put,
      the sentinel is yielded again and `d` does not change a second time. */
  lemma {:induction false} ExhaustedIsIdempotent<V>(kind: Kind, values: seq<V>, d: Value<V>, n: nat)
    ensures Advance(values, |values|) == |values|
    ensures Current(kind, values, |values|, Current(kind, values, |values|, d))
         == Current(kind, values, |values|, d)
    ensures Replay(values, |values|, n) == seq(n, _ => Exhausted)
    decreases n
  {
    if n > 0 {
      ExhaustedIsIdempotent(kind, values, d, n - 1);
    }
  }

  /** With agent.py's cursor, `d` never becomes the sentinel: a value once
      drawn stays the current value through exhaustion. */
  lemma KeepsLastValueNeverExhausts<V>(values: seq<V>, i: nat, d: Value<V>)
    ensures !d.Exhausted? ==> !Current(KeepsLastValue, values, i, d).Exhausted?
    ensures i >= |values| ==> Current(KeepsLastValue, values, i, d) == d
  {
  }

  class Variable<L, V> {
    const varLabel: L
    const kind: Kind
    var values: seq<V>
    var i: nat
    var d: Value<V>

    /** `next()` reads `values[i]` only while `i` has not passed the end. */
    ghost predicate Valid()
      reads this
    {
      i <= |values|
    }

    constructor (varLabel: L, values: seq<V>, kind: Kind)
      ensures Valid()
      ensures this.varLabel == varLabel && this.kind == kind && this.values == values
      ensures i == 0 && d == Undrawn
    {
      this.varLabel := varLabel;
      this.kind := kind;
      this.values := values;
      i := 0;
      d := Undrawn;
    }

    /** The domain getter; a sequence is a value, so the caller gets a copy. */
    function Domain(): (r: seq<V>)
      reads this
      ensures r == values
    {
      values
    }

    /** The domain setter replaces the domain and leaves the cursor where it
        was, possibly past the new end. */
    method SetDomain(s: seq<V>)
      modifies this
      ensures values == s && i == old(i) && d == old(d)
      ensures Domain() == s
    {
      values := s;
    }

    method Next() returns (r: Value<V>)
      requires Valid()
      modifies this
      ensures Valid() && values == old(values)
      ensures old(i) < |values| ==> r == Val(values[old(i)]) && d == r && i == old(i) + 1
      ensures old(i) == |values| ==> r == Exhausted && i == old(i)
      ensures old(i) == |values| ==> d == (if kind == MarksExhaustion then Exhausted else old(d))
      ensures r == Peek(values, old(i)) && i == Advance(values, old(i))
      ensures d == Current(kind, values, old(i), old(d))
    {
      if i == |values| {
        if kind == MarksExhaustion {
          d := Exhausted;
        }
        r := Exhausted;
      } else {
        r := Val(values[i]);
        d := r;
        i := i + 1;
      }
    }

    method Reset()
      modifies this
      ensures i == 0 && values == old(values) && d == old(d) && Valid()
    {
      i := 0;
    }
  }
}
