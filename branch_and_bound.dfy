/**
 The meaning of the SyncBB engine's steps as functions of the state they start
 from: `Scan` is `check`, `Search` is `getNext`, `Sweep` is the last agent's
 enumeration loop in `sendMessage`, and `SendMessageSpec` / `ReceiveSpec` are
 whole protocol steps. The engine's methods are proved to compute them; the
 lemmas here state what they guarantee.
 */
module BranchAndBound {
  import opened Values
  import opened Domain
  import opened Agents
  import opened Order

  /** What stays fixed while one agent checks and draws: the injected
      constraint predicate, its variable's label and its cursor variant. */
  datatype Ctx<!L, !V> = Ctx(accept: Checker<L, V>, varLabel: L, kind: Kind)

  /** The state of one agent: its variable's domain, cursor and current value,
      its search state and the last envelope it received. */
  datatype View<L, V> = View(values: seq<V>, cursor: nat, d: Value<V>,
                             ub: Bound, counter: nat,
                             newPath: seq<PathElement<L, V>>,
                             previousPath: seq<PathElement<L, V>>,
                             payload: Option<Payload<L, V>>)

  /** The state the agents share: the order's cursor, the mailbox and the
      engine's outcome. */
  datatype Shared<L, V> = Shared(treeCursor: int, slots: map<L, Payload<L, V>>,
                                 terminate: bool, sol: Option<Solution<L, V>>)

  // ---------------------------------------------------------------- check

  /** The constraint between a path element and the candidate is violated. */
  predicate Violated<L, V>(ctx: Ctx<L, V>, value: Value<V>, e: PathElement<L, V>) {
    !ctx.accept(e.varLabel, e.value, ctx.varLabel, value)
  }

  /** One for a violated element, zero otherwise. */
  function Bump<L, V>(ctx: Ctx<L, V>, value: Value<V>, e: PathElement<L, V>): nat {
    if Violated(ctx, value, e) then 1 else 0
  }

  /** The number of elements of `path` the candidate violates. */
  function Violations<L, V>(ctx: Ctx<L, V>, value: Value<V>, path: seq<PathElement<L, V>>): (n: nat)
    ensures n <= |path|
  {
    if path == [] then 0
    else Bump(ctx, value, path[0]) + Violations(ctx, value, path[1..])
  }

  /** The path as the candidate passes it on. */
  function Annotate<L, V>(ctx: Ctx<L, V>, value: Value<V>, path: seq<PathElement<L, V>>)
    : (r: seq<PathElement<L, V>>)
    ensures |r| == |path|
  {
    if path == [] then [] else [Carry(ctx, value, path[0])] + Annotate(ctx, value, path[1..])
  }

  /** Passing the path on keeps every label and value and raises each count
      by one exactly where the candidate violates the constraint. */
  lemma {:induction false} AnnotatePointwise<L, V>(ctx: Ctx<L, V>, value: Value<V>, path: seq<PathElement<L, V>>)
    ensures forall k :: 0 <= k < |path| ==>
      && Annotate(ctx, value, path)[k].varLabel == path[k].varLabel
      && Annotate(ctx, value, path)[k].value == path[k].value
    ensures forall k :: 0 <= k < |path| ==>
      Annotate(ctx, value, path)[k].violations
        == path[k].violations + Bump(ctx, value, path[k])
  {
    if path != [] {
      AnnotatePointwise(ctx, value, path[1..]);
      assert forall k :: 1 <= k < |path| ==> Annotate(ctx, value, path)[k] == Annotate(ctx, value, path[1..])[k - 1];
    }
  }

  /** One path element as the candidate passes it on. */
  function Carry<L, V>(ctx: Ctx<L, V>, value: Value<V>, e: PathElement<L, V>): PathElement<L, V> {
    e.(violations := e.violations + Bump(ctx, value, e))
  }

  /** Scanning left to right from `counter`, the element at `k` prunes: it is
      violated and either the running counter or its carried count plus one
      reaches the bound. */
  predicate PrunesAt<L, V>(ctx: Ctx<L, V>, value: Value<V>, ub: Bound,
                           path: seq<PathElement<L, V>>, counter: nat, k: nat)
  {
    && k < |path|
    && Violated(ctx, value, path[k])
    && (Reaches(counter + Violations(ctx, value, path[..k + 1]), ub)
        || Reaches(path[k].violations + 1, ub))
  }

  datatype Scanned<L, V> = Scanned(ok: bool, counter: nat, appended: seq<PathElement<L, V>>)

  /** `check(path, agent)` for the candidate `value`: whether it passes, the
      counter afterwards and what it appended to `new_path`. */
  function Scan<L, V>(ctx: Ctx<L, V>, value: Value<V>, ub: Bound,
                      path: seq<PathElement<L, V>>, counter: nat): (s: Scanned<L, V>)
    ensures s.ok ==> |s.appended| == |path| + 1
    ensures s.counter >= counter
    decreases |path|
  {
    if path == [] then Scanned(true, counter, [PathElement(ctx.varLabel, value, 0)])
    else
      var head := path[0];
      if Violated(ctx, value, head) then
        var c := counter + 1;
        if Reaches(c, ub) || Reaches(head.violations + 1, ub) then Scanned(false, c, [])
        else
          var rest := Scan(ctx, value, ub, path[1..], c);
          Scanned(rest.ok, rest.counter, [head.(violations := head.violations + 1)] + rest.appended)
      else
        var rest := Scan(ctx, value, ub, path[1..], counter);
        Scanned(rest.ok, rest.counter, [head] + rest.appended)
  }

  lemma {:induction false} ViolationsPrefix<L, V>(ctx: Ctx<L, V>, value: Value<V>,
                                                  path: seq<PathElement<L, V>>, j: nat)
    requires 1 <= j <= |path|
    ensures Violations(ctx, value, path[..j])
         == Bump(ctx, value, path[0]) + Violations(ctx, value, path[1..][..j - 1])
  {
    assert path[..j][0] == path[0];
    assert path[..j][1..] == path[1..][..j - 1];
  }

  lemma {:induction false} AnnotatePrefix<L, V>(ctx: Ctx<L, V>, value: Value<V>,
                                                path: seq<PathElement<L, V>>, j: nat)
    requires 1 <= j <= |path|
    ensures Annotate(ctx, value, path[..j])
         == [Carry(ctx, value, path[0])] + Annotate(ctx, value, path[1..][..j - 1])
  {
    assert path[..j][1..] == path[1..][..j - 1];
  }

  /** Pruning at a later position is pruning one step further along the tail,
      started from the counter after the head. */
  lemma {:induction false} PrunesAtShift<L, V>(ctx: Ctx<L, V>, value: Value<V>, ub: Bound,
                                               path: seq<PathElement<L, V>>, counter: nat, k: nat)
    requires 1 <= k
    requires path != []
    ensures PrunesAt(ctx, value, ub, path, counter, k)
        <==> PrunesAt(ctx, value, ub, path[1..],
                      counter + Bump(ctx, value, path[0]), k - 1)
  {
    if k < |path| {
      ViolationsPrefix(ctx, value, path, k + 1);
      assert path[1..][k - 1] == path[k];
    }
  }

  /** What `check` promises when it succeeds: the whole path appended,
      annotated, followed by the agent's own entry with count 0; the counter
      grown by the number of violations; and no element prunes. */
  ghost predicate PassedAll<L, V>(ctx: Ctx<L, V>, value: Value<V>, ub: Bound,
                            path: seq<PathElement<L, V>>, counter: nat, s: Scanned<L, V>)
  {
    && s.ok
    && s.appended == Annotate(ctx, value, path) + [PathElement(ctx.varLabel, value, 0)]
    && s.counter == counter + Violations(ctx, value, path)
    && forall k :: 0 <= k < |path| ==> !PrunesAt(ctx, value, ub, path, counter, k)
  }

  /** What `check` promises when it fails: it stopped at the first element that
      prunes, having appended the annotated elements before it and counted the
      violations up to and including it. */
  ghost predicate StoppedAtFirstPrune<L, V>(ctx: Ctx<L, V>, value: Value<V>, ub: Bound,
                                      path: seq<PathElement<L, V>>, counter: nat, s: Scanned<L, V>)
  {
    && !s.ok
    && |s.appended| < |path|
    && PrunesAt(ctx, value, ub, path, counter, |s.appended|)
    && (forall k :: 0 <= k < |s.appended| ==> !PrunesAt(ctx, value, ub, path, counter, k))
    && s.appended == Annotate(ctx, value, path[..|s.appended|])
    && s.counter == counter + Violations(ctx, value, path[..|s.appended| + 1])
  }

  /** The head does not prune: what `check` does at the head. */
  predicate HeadPasses<L, V>(ctx: Ctx<L, V>, value: Value<V>, ub: Bound,
                             path: seq<PathElement<L, V>>, counter: nat)
    requires path != []
  {
    !(Violated(ctx, value, path[0]) && (Reaches(counter + 1, ub) || Reaches(path[0].violations + 1, ub)))
  }

  lemma HeadPassesIsNoPrune<L, V>(ctx: Ctx<L, V>, value: Value<V>, ub: Bound,
                                  path: seq<PathElement<L, V>>, counter: nat)
    requires path != []
    ensures HeadPasses(ctx, value, ub, path, counter) <==> !PrunesAt(ctx, value, ub, path, counter, 0)
  {
  }

  /** One step of `check` past a head that does not prune. */
  lemma ScanUnfold<L, V>(ctx: Ctx<L, V>, value: Value<V>, ub: Bound,
                         path: seq<PathElement<L, V>>, counter: nat)
    requires path != [] && HeadPasses(ctx, value, ub, path, counter)
    ensures var rest := Scan(ctx, value, ub, path[1..], counter + Bump(ctx, value, path[0]));
      Scan(ctx, value, ub, path, counter)
        == Scanned(rest.ok, rest.counter, [Carry(ctx, value, path[0])] + rest.appended)
  {
  }

  /** No element prunes before position `m` when the head does not and no
      element of the tail prunes before `m - 1`. */
  lemma {:induction false} NoPruneShift<L, V>(ctx: Ctx<L, V>, value: Value<V>, ub: Bound,
                                              path: seq<PathElement<L, V>>, counter: nat, c: nat, m: nat)
    requires path != [] && HeadPasses(ctx, value, ub, path, counter) && 1 <= m
    requires c == counter + Bump(ctx, value, path[0])
    requires forall k :: 0 <= k < m - 1 ==> !PrunesAt(ctx, value, ub, path[1..], c, k)
    ensures forall k :: 0 <= k < m ==> !PrunesAt(ctx, value, ub, path, counter, k)
  {
    HeadPassesIsNoPrune(ctx, value, ub, path, counter);
    forall k | 1 <= k < m
      ensures !PrunesAt(ctx, value, ub, path, counter, k)
    {
      PrunesAtShift(ctx, value, ub, path, counter, k);
    }
  }

  lemma {:induction false} ScanStepPasses<L, V>(ctx: Ctx<L, V>, value: Value<V>, ub: Bound,
                                                path: seq<PathElement<L, V>>, counter: nat)
    requires path != [] && HeadPasses(ctx, value, ub, path, counter)
    requires var c := counter + Bump(ctx, value, path[0]);
      PassedAll(ctx, value, ub, path[1..], c, Scan(ctx, value, ub, path[1..], c))
    ensures PassedAll(ctx, value, ub, path, counter, Scan(ctx, value, ub, path, counter))
  {
    var c := counter + Bump(ctx, value, path[0]);
    var rest := Scan(ctx, value, ub, path[1..], c);
    var s := Scan(ctx, value, ub, path, counter);
    ScanUnfold(ctx, value, ub, path, counter);
    assert s.ok && s.counter == rest.counter;
    NoPruneShift(ctx, value, ub, path, counter, c, |path|);
    var own := [PathElement(ctx.varLabel, value, 0)];
    var head := [Carry(ctx, value, path[0])];
    assert s.appended == head + (Annotate(ctx, value, path[1..]) + own);
    assert Annotate(ctx, value, path) == head + Annotate(ctx, value, path[1..]);
    assert s.appended == Annotate(ctx, value, path) + own;
    assert s.counter == counter + Violations(ctx, value, path);
  }

  /** Where the tail stops pruning, the whole path stops one position later. */
  lemma {:induction false} StopPositionShift<L, V>(ctx: Ctx<L, V>, value: Value<V>, ub: Bound,
                                                   path: seq<PathElement<L, V>>, counter: nat, c: nat, m: nat)
    requires path != [] && HeadPasses(ctx, value, ub, path, counter)
    requires c == counter + Bump(ctx, value, path[0])
    requires PrunesAt(ctx, value, ub, path[1..], c, m)
    requires forall k :: 0 <= k < m ==> !PrunesAt(ctx, value, ub, path[1..], c, k)
    ensures PrunesAt(ctx, value, ub, path, counter, m + 1)
    ensures forall k :: 0 <= k < m + 1 ==> !PrunesAt(ctx, value, ub, path, counter, k)
  {
    NoPruneShift(ctx, value, ub, path, counter, c, m + 1);
    PrunesAtShift(ctx, value, ub, path, counter, m + 1);
  }

  /** What the tail appended and counted before stopping, preceded by the
      head, is what the whole path appended and counted. */
  lemma {:induction false} StopOutputShift<L, V>(ctx: Ctx<L, V>, value: Value<V>,
                                                 path: seq<PathElement<L, V>>, counter: nat, c: nat, m: nat,
                                                 appended: seq<PathElement<L, V>>, total: nat)
    requires path != [] && m + 1 < |path|
    requires c == counter + Bump(ctx, value, path[0])
    requires appended == Annotate(ctx, value, path[1..][..m])
    requires total == c + Violations(ctx, value, path[1..][..m + 1])
    ensures [Carry(ctx, value, path[0])] + appended == Annotate(ctx, value, path[..m + 1])
    ensures total == counter + Violations(ctx, value, path[..m + 2])
  {
    AnnotatePrefix(ctx, value, path, m + 1);
    ViolationsPrefix(ctx, value, path, m + 2);
  }

  lemma {:induction false} ScanStepStops<L, V>(ctx: Ctx<L, V>, value: Value<V>, ub: Bound,
                                               path: seq<PathElement<L, V>>, counter: nat)
    requires path != [] && HeadPasses(ctx, value, ub, path, counter)
    requires var c := counter + Bump(ctx, value, path[0]);
      StoppedAtFirstPrune(ctx, value, ub, path[1..], c, Scan(ctx, value, ub, path[1..], c))
    ensures StoppedAtFirstPrune(ctx, value, ub, path, counter, Scan(ctx, value, ub, path, counter))
  {
    var c := counter + Bump(ctx, value, path[0]);
    var rest := Scan(ctx, value, ub, path[1..], c);
    var m := |rest.appended|;
    var s := Scan(ctx, value, ub, path, counter);
    ScanUnfold(ctx, value, ub, path, counter);
    assert s == Scanned(false, rest.counter, [Carry(ctx, value, path[0])] + rest.appended);
    assert |s.appended| == m + 1;
    StopPositionShift(ctx, value, ub, path, counter, c, m);
    StopOutputShift(ctx, value, path, counter, c, m, rest.appended, rest.counter);
  }

  /** What `check` does: it either passes the whole path or stops at the first
      element that prunes (see `PassedAll` and `StoppedAtFirstPrune`). */
  lemma {:induction false} ScanOutcome<L, V>(ctx: Ctx<L, V>, value: Value<V>, ub: Bound,
                                             path: seq<PathElement<L, V>>, counter: nat)
    ensures var s := Scan(ctx, value, ub, path, counter);
      s.ok ==> PassedAll(ctx, value, ub, path, counter, s)
    ensures var s := Scan(ctx, value, ub, path, counter);
      !s.ok ==> StoppedAtFirstPrune(ctx, value, ub, path, counter, s)
    decreases |path|
  {
    if path == [] {
      return;
    }
    if !HeadPasses(ctx, value, ub, path, counter) {
      assert path[..1] == [path[0]];
      assert path[..1][1..] == [];
      assert path[..0] == [];
      return;
    }
    var c := counter + Bump(ctx, value, path[0]);
    ScanOutcome(ctx, value, ub, path[1..], c);
    if Scan(ctx, value, ub, path[1..], c).ok {
      ScanStepPasses(ctx, value, ub, path, counter);
    } else {
      ScanStepStops(ctx, value, ub, path, counter);
    }
  }

  /** `check` on the empty path (the first agent) appends exactly the agent's
      own entry with count 0 and succeeds. */
  lemma CheckEmptyPath<L, V>(ctx: Ctx<L, V>, value: Value<V>, ub: Bound, counter: nat)
    ensures Scan(ctx, value, ub, [], counter) == Scanned(true, counter, [PathElement(ctx.varLabel, value, 0)])
  {
  }

  /** `check` fails exactly when some element, scanned left to right, prunes. */
  lemma CheckFailsIff<L, V>(ctx: Ctx<L, V>, value: Value<V>, ub: Bound,
                            path: seq<PathElement<L, V>>, counter: nat)
    ensures !Scan(ctx, value, ub, path, counter).ok
        <==> exists k :: 0 <= k < |path| && PrunesAt(ctx, value, ub, path, counter, k)
  {
    ScanOutcome(ctx, value, ub, path, counter);
  }

  /** Under an infinite bound `check` never fails, and the path grows by one. */
  lemma NeverPrunedUnderInfiniteBound<L, V>(ctx: Ctx<L, V>, value: Value<V>,
                                            path: seq<PathElement<L, V>>, counter: nat)
    ensures Scan(ctx, value, Inf, path, counter).ok
    ensures Scan(ctx, value, Inf, path, counter).appended
         == Annotate(ctx, value, path) + [PathElement(ctx.varLabel, value, 0)]
  {
    ScanOutcome(ctx, value, Inf, path, counter);
  }

  // -------------------------------------------------------------- getNext

  /** Domain value `x` passes `check` against `prev` from a reset counter. */
  predicate Feasible<L, V>(ctx: Ctx<L, V>, ub: Bound, prev: seq<PathElement<L, V>>, x: V) {
    Scan(ctx, Val(x), ub, prev, 0).ok
  }

  datatype Searched<L, V> = Searched(value: Value<V>, cursor: nat,
                                     newPath: seq<PathElement<L, V>>, counter: nat)

  /** `getNext` from cursor position `i`: the value returned, the cursor
      afterwards and the `new_path` and `counter` the last check left. Each
      rejected candidate advances the cursor, which bounds the recursion. */
  function Search<L, V>(ctx: Ctx<L, V>, ub: Bound, prev: seq<PathElement<L, V>>, values: seq<V>,
                        i: nat, newPath: seq<PathElement<L, V>>, counter: nat): (o: Searched<L, V>)
    requires i <= |values|
    ensures i <= o.cursor <= |values|
    ensures o.value.Val? || o.value.Exhausted?
    ensures o.value.Exhausted? ==> o.cursor == |values|
    ensures o.value.Val? ==> i < o.cursor && o.value == Val(values[o.cursor - 1]) && o.newPath != []
    decreases |values| - i
  {
    if i == |values| then Searched(Exhausted, i, newPath, counter)
    else
      var s := Scan(ctx, Val(values[i]), ub, prev, 0);
      if s.ok then Searched(Val(values[i]), i + 1, s.appended, s.counter)
      else Search(ctx, ub, prev, values, i + 1, s.appended, s.counter)
  }

  /** `getNext` returns the first feasible value at or after the cursor, with
      `new_path` the annotated previous path plus the agent's own entry; it
      returns the sentinel exactly when no value from the cursor on is
      feasible, and then the cursor is at the end of the domain. */
  lemma {:induction false} SearchOutcome<L, V>(ctx: Ctx<L, V>, ub: Bound, prev: seq<PathElement<L, V>>,
                                               values: seq<V>, i: nat,
                                               newPath: seq<PathElement<L, V>>, counter: nat)
    requires i <= |values|
    ensures var o := Search(ctx, ub, prev, values, i, newPath, counter);
      o.value.Val? ==>
        && Feasible(ctx, ub, prev, values[o.cursor - 1])
        && (forall k :: i <= k < o.cursor - 1 ==> !Feasible(ctx, ub, prev, values[k]))
        && o.newPath == Annotate(ctx, o.value, prev) + [PathElement(ctx.varLabel, o.value, 0)]
        && o.counter == Violations(ctx, o.value, prev)
    ensures var o := Search(ctx, ub, prev, values, i, newPath, counter);
      o.value.Exhausted? <==> forall k :: i <= k < |values| ==> !Feasible(ctx, ub, prev, values[k])
    decreases |values| - i
  {
    if i < |values| {
      var s := Scan(ctx, Val(values[i]), ub, prev, 0);
      if s.ok {
        ScanOutcome(ctx, Val(values[i]), ub, prev, 0);
        assert Search(ctx, ub, prev, values, i, newPath, counter) == Searched(Val(values[i]), i + 1, s.appended, s.counter);
      } else {
        assert Search(ctx, ub, prev, values, i, newPath, counter)
            == Search(ctx, ub, prev, values, i + 1, s.appended, s.counter);
        SearchOutcome(ctx, ub, prev, values, i + 1, s.appended, s.counter);
      }
    }
  }

  /** The first agent checks against the empty path, so every value is
      feasible: `getNext` returns the value under the cursor. */
  lemma FirstAgentTakesNextValue<L, V>(ctx: Ctx<L, V>, ub: Bound, values: seq<V>, i: nat,
                                       newPath: seq<PathElement<L, V>>, counter: nat)
    requires i < |values|
    ensures Search(ctx, ub, [], values, i, newPath, counter)
         == Searched(Val(values[i]), i + 1, [PathElement(ctx.varLabel, Val(values[i]), 0)], 0)
  {
  }

  /** The current value after a `getNext` that started at `i0` with value `d0`. */
  function DrawnCurrent<L, V>(kind: Kind, values: seq<V>, i0: nat, d0: Value<V>, o: Searched<L, V>)
    : Value<V>
  {
    if o.value.Val? || kind == MarksExhaustion then o.value
    else if i0 < |values| then Val(values[|values| - 1])
    else d0
  }

  /** `getNext` on an agent's whole state. */
  function Draw<L, V>(ctx: Ctx<L, V>, a: View<L, V>): (r: (View<L, V>, Value<V>))
    requires a.cursor <= |a.values|
    ensures r.0.values == a.values && r.0.ub == a.ub
    ensures r.0.previousPath == a.previousPath && r.0.payload == a.payload
    ensures a.cursor <= r.0.cursor <= |a.values|
    ensures r.1.Val? || r.1.Exhausted?
    ensures r.1.Exhausted? ==> r.0.cursor == |a.values|
    ensures r.1.Val? ==> a.cursor < r.0.cursor && r.1 == Val(a.values[r.0.cursor - 1])
    ensures r.1.Val? ==> r.0.newPath != [] && r.0.d == r.1
  {
    var o := Search(ctx, a.ub, a.previousPath, a.values, a.cursor, a.newPath, a.counter);
    (a.(cursor := o.cursor, d := DrawnCurrent(ctx.kind, a.values, a.cursor, a.d, o),
        counter := o.counter, newPath := o.newPath),
     o.value)
  }

  /** With agent.py's cursor a draw never leaves the sentinel in `d`, so an
      agent whose domain runs out still looks as if it had a value. */
  lemma DrawKeepsLastValue<L, V>(ctx: Ctx<L, V>, a: View<L, V>)
    requires a.cursor <= |a.values| && ctx.kind == KeepsLastValue && !a.d.Exhausted?
    ensures !Draw(ctx, a).0.d.Exhausted?
  {
  }

  // -------------------------------------------------------- sendMessage

  /** `max(p.violations for p in path)`. */
  function Cost<L, V>(path: seq<PathElement<L, V>>): nat
    requires path != []
  {
    if |path| == 1 then path[0].violations
    else
      var rest := Cost(path[1..]);
      if path[0].violations >= rest then path[0].violations else rest
  }

  /** The cost of a path bounds every element's count and is one of them. */
  lemma {:induction false} CostIsMax<L, V>(path: seq<PathElement<L, V>>)
    requires path != []
    ensures forall k :: 0 <= k < |path| ==> path[k].violations <= Cost(path)
    ensures exists k :: 0 <= k < |path| && path[k].violations == Cost(path)
  {
    if |path| > 1 {
      var tail := path[1..];
      CostIsMax(tail);
      var c := Cost(path);
      assert c == if path[0].violations >= Cost(tail) then path[0].violations else Cost(tail);
      forall k | 0 <= k < |path|
        ensures path[k].violations <= c
      {
        if k > 0 {
          assert path[k] == tail[k - 1];
        }
      }
      if path[0].violations < Cost(tail) {
        var k :| 0 <= k < |tail| && tail[k].violations == Cost(tail);
        assert path[k + 1] == tail[k];
      } else {
        assert path[0].violations == c;
      }
    } else {
      assert path[0].violations == Cost(path);
    }
  }


  datatype Swept<L, V> = Swept(terminated: bool, sol: Option<Solution<L, V>>, cost: int, last: View<L, V>)

  /** `a` and `r` are the state and value a draw left. */
  predicate SweepReady<L, V>(a: View<L, V>, r: Value<V>) {
    && a.cursor <= |a.values|
    && (r.Val? || r.Exhausted?)
    && (r.Val? ==> a.newPath != [])
    && (r.Exhausted? ==> a.cursor == |a.values|)
  }

  /** The last agent's loop: cost each drawn candidate; stop with success at
      the first within `maxCost`; otherwise record it as `sol` (last found, not
      cheapest) and draw again until the domain runs out. */
  function Sweep<L, V>(ctx: Ctx<L, V>, maxCost: int, a: View<L, V>, r: Value<V>,
                       sol: Option<Solution<L, V>>, cost: int): (w: Swept<L, V>)
    requires SweepReady(a, r)
    ensures w.last.values == a.values && w.last.ub == a.ub
    ensures w.last.previousPath == a.previousPath && w.last.payload == a.payload
    ensures a.cursor <= w.last.cursor <= |a.values|
    ensures !w.terminated ==> w.last.cursor == |a.values|
    ensures w.terminated ==> w.last.newPath != [] && w.cost == Cost(w.last.newPath) <= maxCost
    decreases |a.values| - a.cursor, if r.Val? then 1 else 0
  {
    if !r.Val? then Swept(false, sol, cost, a)
    else
      var c := Cost(a.newPath);
      if c <= maxCost then Swept(true, sol, c, a)
      else
        var next := Draw(ctx, a);
        Sweep(ctx, maxCost, next.0, next.1, Some(Solution(a.newPath, c)), c)
  }

  /** One turn of the loop on a drawn value: stop when its path costs at most
      `maxCost`, otherwise record it and go on with the next draw. */
  lemma SweepTurn<L, V>(ctx: Ctx<L, V>, maxCost: int, a: View<L, V>, r: Value<V>,
                        sol: Option<Solution<L, V>>, cost: int)
    requires SweepReady(a, r) && r.Val?
    ensures var c := Cost(a.newPath);
      c <= maxCost ==> Sweep(ctx, maxCost, a, r, sol, cost) == Swept(true, sol, c, a)
    ensures var c := Cost(a.newPath);
      var next := Draw(ctx, a);
      c > maxCost ==>
        Sweep(ctx, maxCost, a, r, sol, cost) == Sweep(ctx, maxCost, next.0, next.1, Some(Solution(a.newPath, c)), c)
  {
  }

  /** The path the last agent proposes for candidate `x`: the previous path as
      `x` passes it on, followed by its own entry with count 0. */
  function CandidatePath<L, V>(ctx: Ctx<L, V>, prev: seq<PathElement<L, V>>, x: V)
    : (p: seq<PathElement<L, V>>)
    ensures |p| == |prev| + 1 && p[|prev|] == PathElement(ctx.varLabel, Val(x), 0)
  {
    Annotate(ctx, Val(x), prev) + [PathElement(ctx.varLabel, Val(x), 0)]
  }

  /** The cost `sendMessage` computes for candidate `x`. */
  function CandidateCost<L, V>(ctx: Ctx<L, V>, prev: seq<PathElement<L, V>>, x: V): nat {
    Cost(CandidatePath(ctx, prev, x))
  }

  /** Candidate `x` passes `check` and its cost is within `maxCost`. */
  predicate WithinBound<L, V>(ctx: Ctx<L, V>, maxCost: int, ub: Bound,
                              prev: seq<PathElement<L, V>>, x: V)
  {
    Feasible(ctx, ub, prev, x) && CandidateCost(ctx, prev, x) <= maxCost
  }

  /** Some domain value from position `i` on is within bound. */
  predicate SomeWithin<L, V>(ctx: Ctx<L, V>, maxCost: int, ub: Bound,
                             prev: seq<PathElement<L, V>>, values: seq<V>, i: nat)
  {
    exists k :: i <= k < |values| && WithinBound(ctx, maxCost, ub, prev, values[k])
  }

  /** `values[j]` is the first value from position `i` on that is within bound. */
  predicate FirstWithin<L, V>(ctx: Ctx<L, V>, maxCost: int, ub: Bound,
                              prev: seq<PathElement<L, V>>, values: seq<V>, i: nat, j: nat)
  {
    && i <= j < |values| && WithinBound(ctx, maxCost, ub, prev, values[j])
    && forall k :: i <= k < j ==> !WithinBound(ctx, maxCost, ub, prev, values[k])
  }

  /** `values[j]` is the last feasible value, and lies at position `i` or later. */
  predicate LastFeasible<L, V>(ctx: Ctx<L, V>, ub: Bound, prev: seq<PathElement<L, V>>,
                               values: seq<V>, i: nat, j: nat)
  {
    && i <= j < |values| && Feasible(ctx, ub, prev, values[j])
    && forall k :: j < k < |values| ==> !Feasible(ctx, ub, prev, values[k])
  }

  /** One draw in candidate terms: a value found is the first feasible one
      from the cursor on and proposes its candidate path; the sentinel comes
      exactly when no value from the cursor on is feasible. */
  lemma DrawOutcome<L, V>(ctx: Ctx<L, V>, a: View<L, V>)
    requires a.cursor <= |a.values|
    ensures var first := Draw(ctx, a);
      first.1.Val? ==>
        && Feasible(ctx, a.ub, a.previousPath, a.values[first.0.cursor - 1])
        && (forall k :: a.cursor <= k < first.0.cursor - 1 ==> !Feasible(ctx, a.ub, a.previousPath, a.values[k]))
        && first.0.newPath == CandidatePath(ctx, a.previousPath, a.values[first.0.cursor - 1])
    ensures Draw(ctx, a).1.Exhausted? <==> !SomeFeasible(ctx, a.ub, a.previousPath, a.values, a.cursor)
  {
    SearchOutcome(ctx, a.ub, a.previousPath, a.values, a.cursor, a.newPath, a.counter);
  }

  /** The last agent's loop started, as `sendMessage` starts it, with a draw
      from state `a`. */
  function SweepFrom<L, V>(ctx: Ctx<L, V>, maxCost: int, a: View<L, V>,
                           sol: Option<Solution<L, V>>, cost: int): Swept<L, V>
    requires a.cursor <= |a.values|
  {
    var first := Draw(ctx, a);
    Sweep(ctx, maxCost, first.0, first.1, sol, cost)
  }

  /** One turn of the loop: a drawn candidate over `maxCost` is recorded and
      the loop goes on with the next draw. */
  lemma SweepFromStep<L, V>(ctx: Ctx<L, V>, maxCost: int, a: View<L, V>,
                            sol: Option<Solution<L, V>>, cost: int)
    requires a.cursor <= |a.values|
    requires Draw(ctx, a).1.Val? && Cost(Draw(ctx, a).0.newPath) > maxCost
    ensures var first := Draw(ctx, a);
      var c := Cost(first.0.newPath);
      SweepFrom(ctx, maxCost, a, sol, cost) == SweepFrom(ctx, maxCost, first.0, Some(Solution(first.0.newPath, c)), c)
  {
  }

  /** A draw that found a candidate over `maxCost` passed no value within
      bound: the ones it skipped were infeasible, and the one it found costs
      too much. */
  lemma SkippedNotWithin<L, V>(ctx: Ctx<L, V>, maxCost: int, a: View<L, V>)
    requires a.cursor <= |a.values|
    requires Draw(ctx, a).1.Val? && Cost(Draw(ctx, a).0.newPath) > maxCost
    ensures forall k :: a.cursor <= k < Draw(ctx, a).0.cursor ==>
      !WithinBound(ctx, maxCost, a.ub, a.previousPath, a.values[k])
  {
    DrawOutcome(ctx, a);
    var j0 := Draw(ctx, a).0.cursor - 1;
    assert !WithinBound(ctx, maxCost, a.ub, a.previousPath, a.values[j0]);
  }

  /** A draw that found a candidate within `maxCost` found the first one. */
  lemma DrawnWithin<L, V>(ctx: Ctx<L, V>, maxCost: int, a: View<L, V>)
    requires a.cursor <= |a.values|
    requires Draw(ctx, a).1.Val? && Cost(Draw(ctx, a).0.newPath) <= maxCost
    ensures FirstWithin(ctx, maxCost, a.ub, a.previousPath, a.values, a.cursor, Draw(ctx, a).0.cursor - 1)
    ensures SomeWithin(ctx, maxCost, a.ub, a.previousPath, a.values, a.cursor)
  {
    DrawOutcome(ctx, a);
    var j0 := Draw(ctx, a).0.cursor - 1;
    assert WithinBound(ctx, maxCost, a.ub, a.previousPath, a.values[j0]);
  }

  /** A draw that found nothing leaves no value within bound. */
  lemma ExhaustedNotWithin<L, V>(ctx: Ctx<L, V>, maxCost: int, a: View<L, V>)
    requires a.cursor <= |a.values|
    requires Draw(ctx, a).1.Exhausted?
    ensures !SomeWithin(ctx, maxCost, a.ub, a.previousPath, a.values, a.cursor)
  {
    DrawOutcome(ctx, a);
    assert forall k :: a.cursor <= k < |a.values| ==> !Feasible(ctx, a.ub, a.previousPath, a.values[k]);
  }

  /** No value in `[i, j)` is within bound, so some value from `i` on is within
      bound exactly when some value from `j` on is. */
  lemma SomeWithinShift<L, V>(ctx: Ctx<L, V>, maxCost: int, ub: Bound, prev: seq<PathElement<L, V>>,
                              values: seq<V>, i: nat, j: nat)
    requires i <= j <= |values|
    requires forall k :: i <= k < j ==> !WithinBound(ctx, maxCost, ub, prev, values[k])
    ensures SomeWithin(ctx, maxCost, ub, prev, values, i) <==> SomeWithin(ctx, maxCost, ub, prev, values, j)
  {
    if SomeWithin(ctx, maxCost, ub, prev, values, i) {
      var k :| i <= k < |values| && WithinBound(ctx, maxCost, ub, prev, values[k]);
      assert j <= k;
    }
  }

  /** The first value within bound from `j` on, with none in `[i, j)`, is the
      first from `i` on. */
  lemma FirstWithinShift<L, V>(ctx: Ctx<L, V>, maxCost: int, ub: Bound, prev: seq<PathElement<L, V>>,
                               values: seq<V>, i: nat, j: nat, m: nat)
    requires i <= j <= |values|
    requires forall k :: i <= k < j ==> !WithinBound(ctx, maxCost, ub, prev, values[k])
    requires FirstWithin(ctx, maxCost, ub, prev, values, j, m)
    ensures FirstWithin(ctx, maxCost, ub, prev, values, i, m)
  {
  }

  /** The last agent's loop, started with a draw from state `a`, succeeds
      exactly when some candidate from the cursor on is within `maxCost`. */
  lemma {:induction false} SweepTerminatesIff<L, V>(ctx: Ctx<L, V>, maxCost: int, a: View<L, V>,
                                                    sol: Option<Solution<L, V>>, cost: int)
    requires a.cursor <= |a.values|
    ensures SweepFrom(ctx, maxCost, a, sol, cost).terminated
        <==> SomeWithin(ctx, maxCost, a.ub, a.previousPath, a.values, a.cursor)
    decreases |a.values| - a.cursor
  {
    var first := Draw(ctx, a);
    if first.1.Val? {
      var c := Cost(first.0.newPath);
      if c > maxCost {
        SweepFromStep(ctx, maxCost, a, sol, cost);
        SweepTerminatesIff(ctx, maxCost, first.0, Some(Solution(first.0.newPath, c)), c);
        SkippedNotWithin(ctx, maxCost, a);
        SomeWithinShift(ctx, maxCost, a.ub, a.previousPath, a.values, a.cursor, first.0.cursor);
      } else {
        DrawnWithin(ctx, maxCost, a);
      }
    } else {
      ExhaustedNotWithin(ctx, maxCost, a);
    }
  }

  /** When the last agent's loop, started with a draw from state `a`,
      succeeds, it has stopped at the first candidate within `maxCost`. */
  lemma {:induction false} SweepStopsAtFirstWithin<L, V>(ctx: Ctx<L, V>, maxCost: int, a: View<L, V>,
                                                         sol: Option<Solution<L, V>>, cost: int)
    requires a.cursor <= |a.values|
    ensures var w := SweepFrom(ctx, maxCost, a, sol, cost);
      w.terminated ==>
        && a.cursor < w.last.cursor <= |a.values|
        && FirstWithin(ctx, maxCost, a.ub, a.previousPath, a.values, a.cursor, w.last.cursor - 1)
    decreases |a.values| - a.cursor
  {
    var first := Draw(ctx, a);
    if first.1.Val? {
      var c := Cost(first.0.newPath);
      if c > maxCost {
        var s := Some(Solution(first.0.newPath, c));
        SweepFromStep(ctx, maxCost, a, sol, cost);
        SweepStopsAtFirstWithin(ctx, maxCost, first.0, s, c);
        var w := SweepFrom(ctx, maxCost, first.0, s, c);
        if w.terminated {
          SkippedNotWithin(ctx, maxCost, a);
          FirstWithinShift(ctx, maxCost, a.ub, a.previousPath, a.values, a.cursor, first.0.cursor, w.last.cursor - 1);
        }
      } else {
        DrawnWithin(ctx, maxCost, a);
      }
    }
  }

  /** When the last agent's loop, started with a draw from state `a`,
      succeeds, the candidate it stopped at is `d`, its path is `new_path` and
      its cost, within `maxCost`, is what the loop returns. */
  lemma {:induction false} SweepKeepsCandidate<L, V>(ctx: Ctx<L, V>, maxCost: int, a: View<L, V>,
                                                     sol: Option<Solution<L, V>>, cost: int)
    requires a.cursor <= |a.values|
    ensures var w := SweepFrom(ctx, maxCost, a, sol, cost);
      w.terminated ==>
        && a.cursor < w.last.cursor <= |a.values|
        && w.last.d == Val(a.values[w.last.cursor - 1])
        && w.last.newPath == CandidatePath(ctx, a.previousPath, a.values[w.last.cursor - 1])
        && w.cost == CandidateCost(ctx, a.previousPath, a.values[w.last.cursor - 1])
        && w.cost <= maxCost
    decreases |a.values| - a.cursor
  {
    var first := Draw(ctx, a);
    if first.1.Val? {
      var c := Cost(first.0.newPath);
      if c > maxCost {
        SweepFromStep(ctx, maxCost, a, sol, cost);
        SweepKeepsCandidate(ctx, maxCost, first.0, Some(Solution(first.0.newPath, c)), c);
      } else {
        DrawOutcome(ctx, a);
      }
    }
  }

  /** The solution and cost a failed loop leaves: the last feasible candidate
      from `i` on, or what it started with when there is none. */
  ghost predicate RecordsLastFeasible<L, V>(ctx: Ctx<L, V>, a: View<L, V>, i: nat,
                                            sol: Option<Solution<L, V>>, cost: int, w: Swept<L, V>)
  {
    && (!w.terminated && SomeFeasible(ctx, a.ub, a.previousPath, a.values, i) ==>
          exists j: nat :: && LastFeasible(ctx, a.ub, a.previousPath, a.values, i, j)
                           && w.sol == Some(Solution(CandidatePath(ctx, a.previousPath, a.values[j]),
                                                     CandidateCost(ctx, a.previousPath, a.values[j])))
                           && w.cost == CandidateCost(ctx, a.previousPath, a.values[j]))
    && (!SomeFeasible(ctx, a.ub, a.previousPath, a.values, i) ==>
          !w.terminated && w.sol == sol && w.cost == cost)
  }

  /** A candidate over `maxCost` recorded before the rest of the loop: the
      rest's last feasible candidate is the whole loop's, and when the rest
      has none, the recorded one is the last. */
  lemma RecordsLastFeasibleStep<L, V>(ctx: Ctx<L, V>, maxCost: int, a: View<L, V>,
                                      sol: Option<Solution<L, V>>, cost: int, w: Swept<L, V>)
    requires a.cursor <= |a.values|
    requires Draw(ctx, a).1.Val? && Cost(Draw(ctx, a).0.newPath) > maxCost
    requires var first := Draw(ctx, a);
      var c := Cost(first.0.newPath);
      RecordsLastFeasible(ctx, a, first.0.cursor, Some(Solution(first.0.newPath, c)), c, w)
    ensures RecordsLastFeasible(ctx, a, a.cursor, sol, cost, w)
  {
    var first := Draw(ctx, a);
    var j0 := first.0.cursor - 1;
    DrawOutcome(ctx, a);
    assert SomeFeasible(ctx, a.ub, a.previousPath, a.values, a.cursor);
    if !SomeFeasible(ctx, a.ub, a.previousPath, a.values, first.0.cursor) {
      assert LastFeasible(ctx, a.ub, a.previousPath, a.values, a.cursor, j0);
    } else if !w.terminated {
      var j: nat :| && LastFeasible(ctx, a.ub, a.previousPath, a.values, first.0.cursor, j)
                    && w.sol == Some(Solution(CandidatePath(ctx, a.previousPath, a.values[j]),
                                              CandidateCost(ctx, a.previousPath, a.values[j])))
                    && w.cost == CandidateCost(ctx, a.previousPath, a.values[j]);
      assert LastFeasible(ctx, a.ub, a.previousPath, a.values, a.cursor, j);
    }
  }

  /** When the last agent's loop, started with a draw from state `a`, fails,
      the solution it leaves is the LAST feasible candidate's path and cost
      (not the cheapest one), and that cost is what it returns; with no
      feasible candidate it fails and leaves `sol` and the cost as they were. */
  lemma {:induction false} SweepRecordsLastFeasible<L, V>(ctx: Ctx<L, V>, maxCost: int, a: View<L, V>,
                                                          sol: Option<Solution<L, V>>, cost: int)
    requires a.cursor <= |a.values|
    ensures RecordsLastFeasible(ctx, a, a.cursor, sol, cost, SweepFrom(ctx, maxCost, a, sol, cost))
    decreases |a.values| - a.cursor
  {
    var first := Draw(ctx, a);
    if first.1.Val? {
      var c := Cost(first.0.newPath);
      if c > maxCost {
        var s := Some(Solution(first.0.newPath, c));
        SweepFromStep(ctx, maxCost, a, sol, cost);
        SweepRecordsLastFeasible(ctx, maxCost, first.0, s, c);
        RecordsLastFeasibleStep(ctx, maxCost, a, sol, cost, SweepFrom(ctx, maxCost, first.0, s, c));
      } else {
        DrawOutcome(ctx, a);
      }
    } else {
      DrawOutcome(ctx, a);
    }
  }

  /** The state the order and the mailbox reach when `sender` forwards `m`. */
  function Forward<L, V>(tree: PseudoTree<L, V>, g: Shared<L, V>, sender: L, m: Message<L, V>): (r: Shared<L, V>)
    requires -1 <= g.treeCursor <= |tree.agents| && g.treeCursor != |tree.agents| - 1
    ensures r.terminate == g.terminate && r.sol == g.sol
    ensures g.treeCursor < |tree.agents| ==>
      && r.treeCursor == g.treeCursor + 1
      && r.slots == g.slots[tree.agents[r.treeCursor].agentLabel := Payload(sender, m)]
    ensures g.treeCursor == |tree.agents| ==> r == g
  {
    var target := tree.NextTarget(g.treeCursor);
    if target.Some? then
      g.(treeCursor := g.treeCursor + 1, slots := g.slots[target.value.agentLabel := Payload(sender, m)])
    else g
  }

  /** The state the order and the mailbox reach when `sender` sends `m` back. */
  function Backward<L, V>(tree: PseudoTree<L, V>, g: Shared<L, V>, sender: L, m: Message<L, V>): (r: Shared<L, V>)
    requires g.treeCursor <= |tree.agents|
    ensures r.terminate == g.terminate && r.sol == g.sol
    ensures g.treeCursor > 0 ==>
      && r.treeCursor == g.treeCursor - 1
      && r.slots == g.slots[tree.agents[r.treeCursor].agentLabel := Payload(sender, m)]
    ensures g.treeCursor <= 0 ==> r == g
  {
    var target := tree.PreviousTarget(g.treeCursor);
    if target.Some? then
      g.(treeCursor := g.treeCursor - 1, slots := g.slots[target.value.agentLabel := Payload(sender, m)])
    else g
  }

  /** What `sendMessage` needs: the agent is in the order and, if it will
      forward, the order's cursor is not on the last agent. */
  predicate SendReady<L, V>(tree: PseudoTree<L, V>, agent: SingleVariableAgent<L, V>,
                            a: View<L, V>, g: Shared<L, V>)
  {
    && agent in tree.agents
    && a.cursor <= |a.values|
    && -1 <= g.treeCursor <= |tree.agents|
    && (!a.d.Exhausted? && !tree.IsLast(agent) ==> g.treeCursor != |tree.agents| - 1)
  }

  /** `sendMessage(agent)`. */
  function SendMessageSpec<L, V>(ctx: Ctx<L, V>, maxCost: int, tree: PseudoTree<L, V>,
                                 agent: SingleVariableAgent<L, V>, a: View<L, V>, g: Shared<L, V>)
    : (r: (View<L, V>, Shared<L, V>))
    requires SendReady(tree, agent, a, g)
    ensures a.d.Exhausted? || !tree.IsLast(agent) ==> r.0 == a && r.1.sol == g.sol
    ensures r.0.values == a.values && r.0.previousPath == a.previousPath && r.0.payload == a.payload
    ensures !g.terminate && r.1.terminate ==> a.d.Exhausted? || tree.IsLast(agent)
  {
    if !a.d.Exhausted? then
      if tree.IsLast(agent) then
        var first := Draw(ctx, a);
        var w := Sweep(ctx, maxCost, first.0, first.1, g.sol, 0);
        var a' := w.last.(ub := Fin(w.cost));
        (a', Backward(tree, g.(terminate := g.terminate || w.terminated, sol := w.sol),
                      agent.agentLabel, Message(a'.previousPath, a'.ub)))
      else
        (a, Forward(tree, g, agent.agentLabel, Message(a.newPath, a.ub)))
    else if tree.IndexOf(agent) == 0 then
      (a, g.(terminate := true))
    else
      (a, Backward(tree, g, agent.agentLabel, Message(a.previousPath, a.ub)))
  }

  /** `initiate(agent)`: draw the first value, then send. */
  function InitiateSpec<L, V>(ctx: Ctx<L, V>, maxCost: int, tree: PseudoTree<L, V>,
                              agent: SingleVariableAgent<L, V>, a: View<L, V>, g: Shared<L, V>)
    : (r: (View<L, V>, Shared<L, V>))
    requires agent in tree.agents && a.cursor <= |a.values| && -1 <= g.treeCursor <= |tree.agents|
    requires !tree.IsLast(agent) ==> g.treeCursor != |tree.agents| - 1
    ensures r.0.values == a.values && r.0.previousPath == a.previousPath && r.0.payload == a.payload
    ensures a.previousPath == [] && a.cursor < |a.values| && !tree.IsLast(agent) ==>
      && r.0.d == Val(a.values[a.cursor])
      && r.0.newPath == [PathElement(ctx.varLabel, Val(a.values[a.cursor]), 0)]
      && r.1.terminate == g.terminate
  {
    SendMessageSpec(ctx, maxCost, tree, agent, Draw(ctx, a).0, g)
  }

  /** Every message `sendMessage` sends moves the order's cursor one step onto
      its recipient, so the agent the driver reads next from the cursor is the
      one holding the message; when the cursor stays, nothing is sent. It
      moves forward exactly when an agent that is not last has a value. */
  lemma MessageGoesToCurrentAgent<L, V>(ctx: Ctx<L, V>, maxCost: int, tree: PseudoTree<L, V>,
                                        agent: SingleVariableAgent<L, V>, a: View<L, V>, g: Shared<L, V>)
    requires SendReady(tree, agent, a, g)
    ensures var r := SendMessageSpec(ctx, maxCost, tree, agent, a, g);
      r.1.treeCursor == g.treeCursor ==> r.1.slots == g.slots
    ensures var r := SendMessageSpec(ctx, maxCost, tree, agent, a, g);
      r.1.treeCursor != g.treeCursor ==>
        && 0 <= r.1.treeCursor < |tree.agents|
        && (r.1.treeCursor == g.treeCursor + 1 || r.1.treeCursor == g.treeCursor - 1)
        && tree.agents[r.1.treeCursor].agentLabel in r.1.slots
        && r.1.slots[tree.agents[r.1.treeCursor].agentLabel].sender == agent.agentLabel
    ensures var r := SendMessageSpec(ctx, maxCost, tree, agent, a, g);
      (r.1.treeCursor == g.treeCursor + 1)
        <==> (!a.d.Exhausted? && !tree.IsLast(agent) && g.treeCursor < |tree.agents|)
  {
  }

  /** `sendMessage` raises `terminate` only for a complete candidate whose
      cost is within `maxCost` (and then that cost becomes the agent's bound),
      or when the first agent has run out of values, which always raises it. */
  lemma TerminateOnlyWhenJustified<L, V>(ctx: Ctx<L, V>, maxCost: int, tree: PseudoTree<L, V>,
                                         agent: SingleVariableAgent<L, V>, a: View<L, V>, g: Shared<L, V>)
    requires SendReady(tree, agent, a, g) && !g.terminate
    ensures var r := SendMessageSpec(ctx, maxCost, tree, agent, a, g);
      r.1.terminate ==>
        || (a.d.Exhausted? && tree.IndexOf(agent) == 0)
        || (&& !a.d.Exhausted? && tree.IsLast(agent) && r.0.newPath != []
            && Cost(r.0.newPath) <= maxCost && r.0.ub == Fin(Cost(r.0.newPath)))
    ensures a.d.Exhausted? && tree.IndexOf(agent) == 0 ==> SendMessageSpec(ctx, maxCost, tree, agent, a, g).1.terminate
  {
    if !a.d.Exhausted? && tree.IsLast(agent) {
      SweepKeepsCandidate(ctx, maxCost, a, g.sol, 0);
    }
  }

  /** The last agent, holding a value, ends the search exactly when some
      candidate from its cursor on passes `check` with a cost within
      `maxCost`; it then stops at the first such candidate, keeps it as `d`
      and its path as `new_path`, and sends back that cost as the bound. */
  lemma LastAgentTerminatesIff<L, V>(ctx: Ctx<L, V>, maxCost: int, tree: PseudoTree<L, V>,
                                     agent: SingleVariableAgent<L, V>, a: View<L, V>, g: Shared<L, V>)
    requires SendReady(tree, agent, a, g) && !g.terminate
    requires !a.d.Exhausted? && tree.IsLast(agent)
    ensures var r := SendMessageSpec(ctx, maxCost, tree, agent, a, g);
      r.1.terminate <==> SomeWithin(ctx, maxCost, a.ub, a.previousPath, a.values, a.cursor)
    ensures var r := SendMessageSpec(ctx, maxCost, tree, agent, a, g);
      r.1.terminate ==>
        && a.cursor < r.0.cursor
        && FirstWithin(ctx, maxCost, a.ub, a.previousPath, a.values, a.cursor, r.0.cursor - 1)
        && r.0.d == Val(a.values[r.0.cursor - 1])
        && r.0.newPath == CandidatePath(ctx, a.previousPath, a.values[r.0.cursor - 1])
        && r.0.ub == Fin(CandidateCost(ctx, a.previousPath, a.values[r.0.cursor - 1]))
  {
    SweepTerminatesIff(ctx, maxCost, a, g.sol, 0);
    SweepStopsAtFirstWithin(ctx, maxCost, a, g.sol, 0);
    SweepKeepsCandidate(ctx, maxCost, a, g.sol, 0);
  }

  /** When the last agent's sweep ends without success, its whole domain has
      been drawn, and `sol` and the bound sent back are the path and cost of
      the LAST feasible candidate, not the cheapest; with no feasible
      candidate at all the bound is 0 and `sol` is untouched. */
  lemma LastAgentRecordsLastCandidate<L, V>(ctx: Ctx<L, V>, maxCost: int, tree: PseudoTree<L, V>,
                                            agent: SingleVariableAgent<L, V>, a: View<L, V>, g: Shared<L, V>)
    requires SendReady(tree, agent, a, g) && !g.terminate
    requires !a.d.Exhausted? && tree.IsLast(agent)
    ensures var r := SendMessageSpec(ctx, maxCost, tree, agent, a, g);
      !r.1.terminate ==> r.0.cursor == |a.values|
    ensures var r := SendMessageSpec(ctx, maxCost, tree, agent, a, g);
      !r.1.terminate && SomeFeasible(ctx, a.ub, a.previousPath, a.values, a.cursor) ==>
        exists j: nat :: && LastFeasible(ctx, a.ub, a.previousPath, a.values, a.cursor, j)
                         && r.1.sol == Some(Solution(CandidatePath(ctx, a.previousPath, a.values[j]),
                                                     CandidateCost(ctx, a.previousPath, a.values[j])))
                         && r.0.ub == Fin(CandidateCost(ctx, a.previousPath, a.values[j]))
    ensures var r := SendMessageSpec(ctx, maxCost, tree, agent, a, g);
      !SomeFeasible(ctx, a.ub, a.previousPath, a.values, a.cursor) ==>
        !r.1.terminate && r.1.sol == g.sol && r.0.ub == Fin(0)
  {
    SweepRecordsLastFeasible(ctx, maxCost, a, g.sol, 0);
  }

  /** After a forward message the last agent has drawn a candidate in
      `receive`, but `sendMessage` draws again before costing anything, so that
      candidate is never costed. Here it has cost 0, within `maxCost` = 0, yet
      the step does not terminate: it records the next candidate, of cost 1,
      and sends bound 1 back. */
  lemma LastAgentSkipsValueDrawnOnReceipt(tree: PseudoTree<int, int>, agent: SingleVariableAgent<int, int>,
                                          g: Shared<int, int>)
    requires |tree.agents| == 2 && tree.agents[1] == agent && g.treeCursor == 1 && !g.terminate
    ensures var ctx := Ctx((l: int, x: Value<int>, m: int, y: Value<int>) => y == Val(0), 2, MarksExhaustion);
      var prev := [PathElement(1, Val(0), 0)];
      var a := View([0, 1], 1, Val(0), Inf, 0, prev + [PathElement(2, Val(0), 0)], prev, None);
      var r := SendMessageSpec(ctx, 0, tree, agent, a, g);
      && Cost(a.newPath) == 0
      && !r.1.terminate
      && r.1.sol == Some(Solution([PathElement(1, Val(0), 1), PathElement(2, Val(1), 0)], 1))
      && r.0.ub == Fin(1)
  {
    var ctx := Ctx((l: int, x: Value<int>, m: int, y: Value<int>) => y == Val(0), 2, MarksExhaustion);
    var prev := [PathElement(1, Val(0), 0)];
    var a := View([0, 1], 1, Val(0), Inf, 0, prev + [PathElement(2, Val(0), 0)], prev, None);
    assert Violated(ctx, Val(1), prev[0]);
    assert prev[1..] == [];
    var s := Scan(ctx, Val(1), Inf, prev, 0);
    assert s == Scanned(true, 1, [PathElement(1, Val(0), 1), PathElement(2, Val(1), 0)]);
    var first := Draw(ctx, a);
    assert first.1 == Val(1) && first.0.cursor == 2;
    assert Cost(first.0.newPath) == 1;
    var second := Draw(ctx, first.0);
    assert second.1 == Exhausted;
  }

  // ------------------------------------------------------------- receive

  /** `new_path` with its last element (if any) replaced by the agent's own
      entry carrying `violations`. */
  function Retail<L, V>(path: seq<PathElement<L, V>>, varLabel: L, d: Value<V>, violations: nat)
    : (r: seq<PathElement<L, V>>)
    ensures |r| == if path == [] then 1 else |path|
    ensures r[|r| - 1] == PathElement(varLabel, d, violations)
    ensures forall k :: 0 <= k < |r| - 1 ==> r[k] == path[k]
  {
    (if path == [] then [] else path[..|path| - 1]) + [PathElement(varLabel, d, violations)]
  }

  /** `receive(agent)`, with the mailbox read as a dictionary. A message from a
      later agent is a backtrack: adopt its bound, draw again, and give the
      agent's own entry the count carried by the last element of the incoming
      path. A message from an earlier agent is a new path: adopt it and its
      bound, then draw. */
  function ReceiveSpec<L, V>(ctx: Ctx<L, V>, tree: PseudoTree<L, V>, agent: SingleVariableAgent<L, V>,
                             a: View<L, V>, slots: map<L, Payload<L, V>>): (r: (View<L, V>, Option<Fault>))
    requires agent in tree.agents && a.cursor <= |a.values|
    ensures r.1 == Some(MailboxEmpty) <==> agent.agentLabel !in slots
    ensures r.1 == Some(UnknownSender)
        <==> agent.agentLabel in slots && tree.GetAgent(slots[agent.agentLabel].sender).None?
    ensures agent.agentLabel in slots ==> r.0.payload == Some(slots[agent.agentLabel])
    ensures r.1.Some? ==>
      r.0 == if agent.agentLabel in slots then a.(payload := Some(slots[agent.agentLabel])) else a
    ensures r.0.values == a.values
  {
    if agent.agentLabel !in slots then (a, Some(MailboxEmpty))
    else
      var p := slots[agent.agentLabel];
      var a0 := a.(payload := Some(p));
      var s := tree.GetAgent(p.sender);
      if s.None? then (a0, Some(UnknownSender))
      else if tree.IsParent(agent, s.value) then
        if p.message.path == [] then (a0, Some(EmptyPath))
        else
          var tail := p.message.path[|p.message.path| - 1];
          var drawn := Draw(ctx, a0.(ub := p.message.upperBound));
          (drawn.0.(newPath := Retail(drawn.0.newPath, ctx.varLabel, drawn.1, tail.violations)), None)
      else
        (Draw(ctx, a0.(previousPath := p.message.path, ub := p.message.upperBound)).0, None)
  }

  /** Some domain value from position `i` on is feasible against `prev`. */
  predicate SomeFeasible<L, V>(ctx: Ctx<L, V>, ub: Bound, prev: seq<PathElement<L, V>>,
                               values: seq<V>, i: nat)
  {
    exists k :: i <= k < |values| && Feasible(ctx, ub, prev, values[k])
  }

  /** A forward message makes the agent adopt the incoming path and bound and
      take its first feasible value against them, proposing the annotated path
      plus its own entry; with no feasible value left its cursor is at the end. */
  lemma ForwardReceiveAdoptsPath<L, V>(ctx: Ctx<L, V>, tree: PseudoTree<L, V>,
                                       agent: SingleVariableAgent<L, V>, a: View<L, V>,
                                       slots: map<L, Payload<L, V>>)
    requires agent in tree.agents && a.cursor <= |a.values| && agent.agentLabel in slots
    requires var p := slots[agent.agentLabel];
      tree.GetAgent(p.sender).Some? && !tree.IsParent(agent, tree.GetAgent(p.sender).value)
    ensures var m := slots[agent.agentLabel].message;
      var r := ReceiveSpec(ctx, tree, agent, a, slots);
      && r.1 == None
      && r.0.previousPath == m.path && r.0.ub == m.upperBound
      && (SomeFeasible(ctx, m.upperBound, m.path, a.values, a.cursor) ==>
            && a.cursor < r.0.cursor
            && r.0.d == Val(a.values[r.0.cursor - 1])
            && Feasible(ctx, m.upperBound, m.path, a.values[r.0.cursor - 1])
            && (forall k :: a.cursor <= k < r.0.cursor - 1 ==> !Feasible(ctx, m.upperBound, m.path, a.values[k]))
            && r.0.newPath == Annotate(ctx, r.0.d, m.path) + [PathElement(ctx.varLabel, r.0.d, 0)])
      && (!SomeFeasible(ctx, m.upperBound, m.path, a.values, a.cursor) ==>
            r.0.cursor == |a.values| && (ctx.kind == MarksExhaustion ==> r.0.d == Exhausted))
  {
    var m := slots[agent.agentLabel].message;
    var a0 := a.(payload := Some(slots[agent.agentLabel]), previousPath := m.path, ub := m.upperBound);
    SearchOutcome(ctx, m.upperBound, m.path, a.values, a.cursor, a0.newPath, a0.counter);
  }

  /** A backtrack message makes the agent adopt the incoming bound and draw
      again against its unchanged previous path; its own entry, last in
      `new_path`, then carries the drawn value (the sentinel when none is
      feasible, whatever `d` holds) and the count of the incoming path's last
      element. */
  lemma BacktrackReplacesOwnEntry<L, V>(ctx: Ctx<L, V>, tree: PseudoTree<L, V>,
                                        agent: SingleVariableAgent<L, V>, a: View<L, V>,
                                        slots: map<L, Payload<L, V>>)
    requires agent in tree.agents && a.cursor <= |a.values| && agent.agentLabel in slots
    requires var p := slots[agent.agentLabel];
      && tree.GetAgent(p.sender).Some? && tree.IsParent(agent, tree.GetAgent(p.sender).value)
      && p.message.path != []
    ensures var m := slots[agent.agentLabel].message;
      var r := ReceiveSpec(ctx, tree, agent, a, slots);
      var carried := m.path[|m.path| - 1].violations;
      && r.1 == None
      && r.0.ub == m.upperBound && r.0.previousPath == a.previousPath
      && (SomeFeasible(ctx, m.upperBound, a.previousPath, a.values, a.cursor) ==>
            && a.cursor < r.0.cursor
            && r.0.d == Val(a.values[r.0.cursor - 1])
            && Feasible(ctx, m.upperBound, a.previousPath, a.values[r.0.cursor - 1])
            && r.0.newPath == Annotate(ctx, r.0.d, a.previousPath) + [PathElement(ctx.varLabel, r.0.d, carried)])
      && (!SomeFeasible(ctx, m.upperBound, a.previousPath, a.values, a.cursor) ==>
            && r.0.cursor == |a.values|
            && r.0.newPath != []
            && r.0.newPath[|r.0.newPath| - 1] == PathElement(ctx.varLabel, Exhausted, carried))
  {
    var m := slots[agent.agentLabel].message;
    var a0 := a.(payload := Some(slots[agent.agentLabel]), ub := m.upperBound);
    SearchOutcome(ctx, m.upperBound, a.previousPath, a.values, a.cursor, a0.newPath, a0.counter);
    var o := Search(ctx, m.upperBound, a.previousPath, a.values, a.cursor, a0.newPath, a0.counter);
    if o.value.Val? {
      var front := Annotate(ctx, o.value, a.previousPath);
      assert (front + [PathElement(ctx.varLabel, o.value, 0)])[..|front|] == front;
    }
  }
}
