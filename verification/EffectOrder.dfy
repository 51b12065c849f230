/**
 When the order of a rule's effects matters.  Writing pairwise different variables is not enough: each effect sees
 what the ones before it wrote.  The exact condition is on the state the rule starts from: every effect is accepted
 there, and no other two effects' outcomes, once installed, change it.
 */
module EffectOrder {
  import opened Wrappers
  import opened GameKernel
  import Sorting

  // Each of the two effects is accepted, and leaves what it leaves whether or not the other came first.
  predicate Commute<V(==)>(schema: Schema<V>, a: Effect<V>, b: Effect<V>, s: State<V>, ps: Parameters) {
    var x, y := Outcome(schema, a, s, ps), Outcome(schema, b, s, ps);
    && x.Some? && y.Some?
    && Outcome(schema, b, s[a.target := x.value], ps) == y
    && Outcome(schema, a, s[b.target := y.value], ps) == x
  }

  lemma {:induction false} ApplyTwo<V>(schema: Schema<V>, a: Effect<V>, b: Effect<V>, s: State<V>, ps: Parameters)
    ensures ApplyAll(schema, [a, b], s, ps) ==
      (var first := Apply(schema, a, s, ps); if first.None? then None else Apply(schema, b, first.value, ps))
  {
    hide Apply;
    assert [a, b][1..] == [b] && [b][1..] == [];
    var first := Apply(schema, a, s, ps);
    if first.Some? {
      var second := Apply(schema, b, first.value, ps);
      if second.Some? { assert ApplyAll(schema, [], second.value, ps) == second; }
      assert ApplyAll(schema, [b], first.value, ps) == second;
    }
  }

  // Two effects that write different variables: the orders agree exactly when both reject, or neither effect's
  // outcome changes after the other's write.
  lemma {:induction false} TwoEffects<V>(schema: Schema<V>, a: Effect<V>, b: Effect<V>, s: State<V>, ps: Parameters)
    requires a.target != b.target
    ensures var x, y := ApplyAll(schema, [a, b], s, ps), ApplyAll(schema, [b, a], s, ps);
      x == y <==> (x.None? && y.None?) || Commute(schema, a, b, s, ps)
  {
    hide Outcome;
    ApplyTwo(schema, a, b, s, ps);
    ApplyTwo(schema, b, a, s, ps);
    var x, y := Outcome(schema, a, s, ps), Outcome(schema, b, s, ps);
    if x.Some? && y.Some? {
      var afterA, afterB := s[a.target := x.value], s[b.target := y.value];
      var y', x' := Outcome(schema, b, afterA, ps), Outcome(schema, a, afterB, ps);
      if x'.Some? && y'.Some? {
        var ab, ba := afterA[b.target := y'.value], afterB[a.target := x'.value];
        assert ab[a.target] == x.value && ab[b.target] == y'.value;
        assert ba[a.target] == x'.value && ba[b.target] == y.value;
        if x' == x && y' == y { assert ab == ba; }
      }
    }
  }

  // ---- Neighbours inside a rule ----

  lemma {:induction false} ApplyJoined<V>(schema: Schema<V>, a: seq<Effect<V>>, b: seq<Effect<V>>, s: State<V>,
        ps: Parameters)
    ensures ApplyAll(schema, a + b, s, ps) ==
      (var first := ApplyAll(schema, a, s, ps); if first.None? then None else ApplyAll(schema, b, first.value, ps))
    decreases |a|
  {
    hide Apply;
    if a == [] {
      assert a + b == b;
    } else {
      assert (a + b)[1..] == a[1..] + b;
      var next := Apply(schema, a[0], s, ps);
      if next.Some? { ApplyJoined(schema, a[1..], b, next.value, ps); }
    }
  }

  predicate Writes<V(==)>(es: seq<Effect<V>>, v: V) { exists i :: 0 <= i < |es| && es[i].target == v }

  lemma {:induction false} KeepsOthers<V>(schema: Schema<V>, es: seq<Effect<V>>, s: State<V>, ps: Parameters, v: V)
    requires !Writes(es, v) && ApplyAll(schema, es, s, ps).Some?
    ensures var t := ApplyAll(schema, es, s, ps).value; (v in t <==> v in s) && (v in s ==> t[v] == s[v])
    decreases |es|
  {
    if es != [] {
      var next := Apply(schema, es[0], s, ps).value;
      assert forall i :: 0 <= i < |es[1..]| ==> es[1..][i] == es[i + 1];
      KeepsOthers(schema, es[1..], next, ps, v);
    }
  }

  lemma {:induction false} ApplyBetween<V>(schema: Schema<V>, pre: seq<Effect<V>>, a: Effect<V>, b: Effect<V>,
        post: seq<Effect<V>>, s: State<V>, ps: Parameters)
    requires ApplyAll(schema, pre, s, ps).Some?
    ensures var t := ApplyAll(schema, [a, b], ApplyAll(schema, pre, s, ps).value, ps);
      ApplyAll(schema, pre + [a, b] + post, s, ps) == if t.None? then None else ApplyAll(schema, post, t.value, ps)
  {
    ApplyJoined(schema, pre + [a, b], post, s, ps);
    ApplyJoined(schema, pre, [a, b], s, ps);
  }

  // A pair of outcomes differs in one of the pair's targets, where the effects after it cannot hide it.
  lemma {:induction false} PairShows<V>(schema: Schema<V>, a: Effect<V>, b: Effect<V>, post: seq<Effect<V>>,
        s: State<V>, ps: Parameters)
    requires a.target != b.target && !Writes(post, a.target) && !Writes(post, b.target)
    requires ApplyAll(schema, [a, b], s, ps).Some? && ApplyAll(schema, [b, a], s, ps).Some?
    requires ApplyAll(schema, post, ApplyAll(schema, [a, b], s, ps).value, ps).Some?
    requires ApplyAll(schema, post, ApplyAll(schema, [a, b], s, ps).value, ps)
      == ApplyAll(schema, post, ApplyAll(schema, [b, a], s, ps).value, ps)
    ensures Commute(schema, a, b, s, ps)
  {
    hide Outcome, ApplyAll, Writes;
    var x, y := ApplyAll(schema, [a, b], s, ps).value, ApplyAll(schema, [b, a], s, ps).value;
    ApplyTwo(schema, a, b, s, ps);
    ApplyTwo(schema, b, a, s, ps);
    KeepsOthers(schema, post, x, ps, a.target);
    KeepsOthers(schema, post, x, ps, b.target);
    KeepsOthers(schema, post, y, ps, a.target);
    KeepsOthers(schema, post, y, ps, b.target);
  }

  // The orders of two neighbours inside a rule, whatever comes before and after, agree exactly when both reject or
  // the neighbours leave each other alone in the state they start from.
  lemma {:induction false} NeighboursExactly<V>(schema: Schema<V>, pre: seq<Effect<V>>, a: Effect<V>, b: Effect<V>,
        post: seq<Effect<V>>, s: State<V>, ps: Parameters)
    requires a.target != b.target && !Writes(post, a.target) && !Writes(post, b.target)
    ensures var x, y := ApplyAll(schema, pre + [a, b] + post, s, ps), ApplyAll(schema, pre + [b, a] + post, s, ps);
      x == y <==> (x.None? && y.None?) || CommuteAfter(schema, pre, a, b, s, ps)
  {
    hide Commute, Writes;
    var start := ApplyAll(schema, pre, s, ps);
    if start.None? {
      ApplyJoined(schema, pre + [a, b], post, s, ps);
      ApplyJoined(schema, pre + [b, a], post, s, ps);
      ApplyJoined(schema, pre, [a, b], s, ps);
      ApplyJoined(schema, pre, [b, a], s, ps);
    } else {
      hide ApplyAll;
      ApplyBetween(schema, pre, a, b, post, s, ps);
      ApplyBetween(schema, pre, b, a, post, s, ps);
      TwoEffects(schema, a, b, start.value, ps);
      var x, y := ApplyAll(schema, pre + [a, b] + post, s, ps), ApplyAll(schema, pre + [b, a] + post, s, ps);
      if x == y && x.Some? { PairShows(schema, a, b, post, start.value, ps); }
    }
  }

  predicate CommuteAfter<V(==)>(schema: Schema<V>, pre: seq<Effect<V>>, a: Effect<V>, b: Effect<V>, s: State<V>,
    ps: Parameters)
  {
    var start := ApplyAll(schema, pre, s, ps);
    start.Some? && Commute(schema, a, b, start.value, ps)
  }

  // ---- Every order ----

  ghost predicate DistinctTargets<V>(es: seq<Effect<V>>) {
    forall i, j :: 0 <= i < j < |es| ==> es[i].target != es[j].target
  }

  // The rule gives the same for its effects in every order.
  ghost predicate OrdersAgree<V(!new)>(schema: Schema<V>, es: seq<Effect<V>>, s: State<V>, ps: Parameters) {
    forall order: seq<Effect<V>> :: multiset(order) == multiset(es)
      ==> ApplyAll(schema, order, s, ps) == ApplyAll(schema, es, s, ps)
  }

  // The rule rejects its effects in every order.
  ghost predicate EveryOrderRejects<V(!new)>(schema: Schema<V>, es: seq<Effect<V>>, s: State<V>, ps: Parameters) {
    forall order: seq<Effect<V>> :: multiset(order) == multiset(es) ==> ApplyAll(schema, order, s, ps).None?
  }

  lemma {:induction false} DistinctInAnyOrder<V>(es: seq<Effect<V>>, order: seq<Effect<V>>)
    requires DistinctTargets(es) && multiset(order) == multiset(es)
    ensures DistinctTargets(order)
  {
    forall i, j | 0 <= i < j < |order| ensures order[i].target != order[j].target {
      if order[i].target == order[j].target {
        assert order[i] in multiset(es) && order[j] in multiset(es);
        var p :| 0 <= p < |es| && es[p] == order[i];
        var q :| 0 <= q < |es| && es[q] == order[j];
        assert p == q;
        Sorting.Twice(order, i, j);
        TargetOnce(es, p);
        assert false;
      }
    }
  }

  lemma {:induction false} TargetOnce<V>(es: seq<Effect<V>>, p: nat)
    requires p < |es| && DistinctTargets(es)
    ensures multiset(es)[es[p]] <= 1
  {
    assert es == es[..p] + [es[p]] + es[p + 1..];
    assert es[p] !in es[..p] && es[p] !in es[p + 1..];
  }

  // ---- A condition on the starting state ----

  // `t` with the value in it that effect `e` has in the starting state `s`.
  function Install<V>(schema: Schema<V>, e: Effect<V>, s: State<V>, t: State<V>, ps: Parameters): State<V> {
    var r := Outcome(schema, e, s, ps);
    if r.None? then t else t[e.target := r.value]
  }

  // Installing what `a` and `b` leave in the starting state does not change what `e` leaves.
  predicate KeepsOutcome<V(==)>(schema: Schema<V>, a: Effect<V>, b: Effect<V>, e: Effect<V>, s: State<V>,
    ps: Parameters)
  {
    Outcome(schema, e, Install(schema, b, s, Install(schema, a, s, s, ps), ps), ps) == Outcome(schema, e, s, ps)
  }

  // Every effect is accepted in the starting state, and no two others disturb it.
  ghost predicate Undisturbed<V(!new)>(schema: Schema<V>, es: seq<Effect<V>>, s: State<V>, ps: Parameters) {
    && (forall e :: e in es ==> Outcome(schema, e, s, ps).Some?)
    && forall a, b, e :: a in es && b in es && e in es && a != e && b != e ==> KeepsOutcome(schema, a, b, e, s, ps)
  }

  // An effect reads at most two variables besides its target.
  function Reads<V>(e: Effect<V>): (Option<V>, Option<V>) {
    match e
    case Set(_, o) => (Source(o), None)
    case Reset(_) => (None, None)
    case Increment(_, o) => (Source(o), None)
    case Swap(_, first, second) => (Source(first), Source(second))
    case AppendUnique(_, o) => (Source(o), None)
  }

  function Source<V>(o: Operand<V>): Option<V> { if o.StateOf? then Some(o.variable) else None }

  predicate SameAt<V(==)>(s: State<V>, t: State<V>, v: V) { (v in s <==> v in t) && (v in s ==> s[v] == t[v]) }

  // Its outcome depends on those and its target alone.
  lemma {:induction false} OutcomeReads<V>(schema: Schema<V>, e: Effect<V>, s: State<V>, t: State<V>, ps: Parameters)
    requires SameAt(s, t, e.target)
    requires Reads(e).0.Some? ==> SameAt(s, t, Reads(e).0.value)
    requires Reads(e).1.Some? ==> SameAt(s, t, Reads(e).1.value)
    ensures Outcome(schema, e, s, ps) == Outcome(schema, e, t, ps)
  {
  }

  // `t` is the starting state with the outcomes of the effects `done` installed, whatever their order.
  ghost predicate Installed<V(!new)>(schema: Schema<V>, done: seq<Effect<V>>, s: State<V>, t: State<V>,
    ps: Parameters)
  {
    && t.Keys == s.Keys
    && (forall e :: e in done ==> e.target in s && Outcome(schema, e, s, ps) == Some(t[e.target]))
    && (forall v :: v in s && (forall e :: e in done ==> e.target != v) ==> t[v] == s[v])
  }

  // Some effect done wrote the variable, or it is as it was.
  lemma {:induction false} WrittenOrKept<V(!new)>(schema: Schema<V>, done: seq<Effect<V>>, s: State<V>, t: State<V>,
        ps: Parameters, v: V) returns (writer: Option<Effect<V>>)
    requires Installed(schema, done, s, t, ps)
    ensures writer.Some? ==> writer.value in done && writer.value.target == v
    ensures writer.None? ==> SameAt(s, t, v)
  {
    if e :| e in done && e.target == v { writer := Some(e); } else { writer := None; }
  }

  lemma {:induction false} InstallPair<V(!new)>(schema: Schema<V>, done: seq<Effect<V>>, s: State<V>, t: State<V>,
        ps: Parameters, a: Effect<V>, b: Effect<V>, v: V)
    requires Installed(schema, done, s, t, ps) && a in done && b in done
    requires v == a.target || v == b.target || SameAt(s, t, v)
    ensures var u := Install(schema, b, s, Install(schema, a, s, s, ps), ps);
      v == a.target || v == b.target ==> SameAt(u, t, v)
    ensures var u := Install(schema, b, s, Install(schema, a, s, s, ps), ps);
      v != a.target && v != b.target ==> SameAt(u, t, v)
  {
  }

  // An effect not done yet leaves what it leaves in the starting state.
  lemma {:induction false} NextOutcome<V(!new)>(schema: Schema<V>, es: seq<Effect<V>>, done: seq<Effect<V>>,
        e: Effect<V>, s: State<V>, t: State<V>, ps: Parameters)
    requires Undisturbed(schema, es, s, ps) && e in es && (forall d :: d in done ==> d in es && d.target != e.target)
    requires Installed(schema, done, s, t, ps)
    ensures Outcome(schema, e, t, ps) == Outcome(schema, e, s, ps)
  {
    hide Outcome;
    var x, y := Reads(e).0, Reads(e).1;
    var a: Option<Effect<V>>, b: Option<Effect<V>> := None, None;
    if x.Some? { a := WrittenOrKept(schema, done, s, t, ps, x.value); }
    if y.Some? { b := WrittenOrKept(schema, done, s, t, ps, y.value); }
    assert SameAt(s, t, e.target);
    if a.None? && b.None? {
      OutcomeReads(schema, e, s, t, ps);
    } else {
      var p, q := if a.Some? then a.value else b.value, if b.Some? then b.value else a.value;
      var u := Install(schema, q, s, Install(schema, p, s, s, ps), ps);
      InstallPair(schema, done, s, t, ps, p, q, e.target);
      if x.Some? { InstallPair(schema, done, s, t, ps, p, q, x.value); }
      if y.Some? { InstallPair(schema, done, s, t, ps, p, q, y.value); }
      OutcomeReads(schema, e, u, t, ps);
      assert KeepsOutcome(schema, p, q, e, s, ps);
    }
  }

  // So undisturbed effects are accepted in every order, each with its outcome in the starting state.
  lemma {:induction false} AllInstalled<V(!new)>(schema: Schema<V>, es: seq<Effect<V>>, order: seq<Effect<V>>,
        s: State<V>, ps: Parameters)
    requires Undisturbed(schema, es, s, ps) && DistinctTargets(order) && forall e :: e in order ==> e in es
    ensures var r := ApplyAll(schema, order, s, ps); r.Some? && Installed(schema, order, s, r.value, ps)
    decreases |order|
  {
    hide Outcome, Undisturbed, ApplyAll;
    if order == [] {
      ApplyNone(schema, s, ps);
    } else {
      var n := |order| - 1;
      var done, e := order[..n], order[n];
      assert order == done + [e];
      AllInstalled(schema, es, done, s, ps);
      var t := ApplyAll(schema, done, s, ps).value;
      NextOutcome(schema, es, done, e, s, t, ps);
      ApplyOneMore(schema, done, e, s, ps);
      Accepted(schema, es, e, s, ps);
      InstallsOneMore(schema, done, e, s, t, ps);
    }
  }

  lemma {:induction false} ApplyNone<V>(schema: Schema<V>, s: State<V>, ps: Parameters)
    ensures ApplyAll(schema, [], s, ps) == Some(s)
  {
  }

  lemma {:induction false} Accepted<V(!new)>(schema: Schema<V>, es: seq<Effect<V>>, e: Effect<V>, s: State<V>,
        ps: Parameters)
    requires Undisturbed(schema, es, s, ps) && e in es
    ensures Outcome(schema, e, s, ps).Some? && e.target in s
  {
  }

  lemma {:induction false} ApplyOneMore<V>(schema: Schema<V>, done: seq<Effect<V>>, e: Effect<V>, s: State<V>,
        ps: Parameters)
    ensures ApplyAll(schema, done + [e], s, ps) ==
      (var t := ApplyAll(schema, done, s, ps); if t.None? then None else Apply(schema, e, t.value, ps))
  {
    hide Apply;
    ApplyJoined(schema, done, [e], s, ps);
    var t := ApplyAll(schema, done, s, ps);
    if t.Some? {
      assert [e][1..] == [];
      var next := Apply(schema, e, t.value, ps);
      if next.Some? { ApplyNone(schema, next.value, ps); }
    }
  }

  lemma {:induction false} InstallsOneMore<V(!new)>(schema: Schema<V>, done: seq<Effect<V>>, e: Effect<V>, s: State<V>,
        t: State<V>, ps: Parameters)
    requires Installed(schema, done, s, t, ps) && e.target in s && Outcome(schema, e, s, ps).Some?
    requires forall d :: d in done ==> d.target != e.target
    ensures Installed(schema, done + [e], s, t[e.target := Outcome(schema, e, s, ps).value], ps)
  {
    hide Outcome;
    var u := t[e.target := Outcome(schema, e, s, ps).value];
    forall v | v in s && (forall d :: d in done + [e] ==> d.target != v) ensures u[v] == s[v] {
      assert e in done + [e];
      forall d | d in done ensures d.target != v { assert d in done + [e]; }
    }
  }

  lemma {:induction false} InstalledOnce<V(!new)>(schema: Schema<V>, a: seq<Effect<V>>, b: seq<Effect<V>>,
        s: State<V>, t: State<V>, u: State<V>, ps: Parameters)
    requires Installed(schema, a, s, t, ps) && Installed(schema, b, s, u, ps) && forall e :: e in a <==> e in b
    ensures t == u
  {
    hide Outcome;
    forall v | v in s ensures t[v] == u[v] {
      if e :| e in a && e.target == v { assert e in b; }
    }
  }

  lemma {:induction false} SameMembers<V>(a: seq<Effect<V>>, b: seq<Effect<V>>)
    requires multiset(a) == multiset(b)
    ensures forall e :: e in a <==> e in b
  {
    forall e ensures e in a <==> e in b { assert e in multiset(a) <==> e in multiset(b); }
  }

  // Some order starts with any given different effects.
  lemma {:induction false} StartsWith<E>(es: seq<E>, front: seq<E>) returns (rest: seq<E>)
    requires forall i :: 0 <= i < |front| ==> front[i] in es
    requires forall i, j :: 0 <= i < j < |front| ==> front[i] != front[j]
    ensures multiset(front + rest) == multiset(es)
    decreases |front|
  {
    if front == [] {
      rest := es;
      assert front + rest == es;
    } else {
      var others := StartsWith(es, front[1..]);
      assert front[0] in multiset(es) && front[0] !in front[1..];
      assert front[0] in multiset(front[1..] + others) && front[0] in others;
      var k :| 0 <= k < |others| && others[k] == front[0];
      rest := others[..k] + others[k + 1..];
      assert others == others[..k] + ([others[k]] + others[k + 1..]);
      assert front == [front[0]] + front[1..];
      assert front + rest == [front[0]] + (front[1..] + rest);
    }
  }

  // What an effect of an accepted order left is still there at the end.
  lemma {:induction false} FinalValue<V(!new)>(schema: Schema<V>, pre: seq<Effect<V>>, e: Effect<V>,
        post: seq<Effect<V>>, s: State<V>, ps: Parameters)
    requires DistinctTargets(pre + [e] + post) && ApplyAll(schema, pre + [e] + post, s, ps).Some?
    ensures var t, end := ApplyAll(schema, pre, s, ps), ApplyAll(schema, pre + [e] + post, s, ps).value;
      t.Some? && e.target in end && Outcome(schema, e, t.value, ps) == Some(end[e.target])
  {
    hide Outcome, ApplyAll;
    ApplyJoined(schema, pre + [e], post, s, ps);
    ApplyOneMore(schema, pre, e, s, ps);
    var order, n := pre + [e] + post, |pre|;
    assert order[n] == e;
    assert !Writes(post, e.target) by {
      forall i | 0 <= i < |post| ensures post[i].target != e.target { assert order[n + 1 + i] == post[i]; }
    }
    KeepsOthers(schema, post, ApplyAll(schema, pre + [e], s, ps).value, ps, e.target);
  }

  // Accepted effects whose orders agree: each leaves in any order what it leaves when it comes first.
  lemma {:induction false} LeavesTheSame<V(!new)>(schema: Schema<V>, es: seq<Effect<V>>, front: seq<Effect<V>>,
        e: Effect<V>, s: State<V>, ps: Parameters)
    requires DistinctTargets(es) && OrdersAgree(schema, es, s, ps) && ApplyAll(schema, es, s, ps).Some?
    requires forall i :: 0 <= i < |front| ==> front[i] in es && front[i] != e
    requires e in es && forall i, j :: 0 <= i < j < |front| ==> front[i] != front[j]
    ensures var t, end := ApplyAll(schema, front, s, ps), ApplyAll(schema, es, s, ps).value;
      t.Some? && e.target in end && Outcome(schema, e, t.value, ps) == Some(end[e.target])
  {
    hide Outcome, ApplyAll;
    var rest := StartsWith(es, front + [e]);
    DistinctInAnyOrder(es, front + [e] + rest);
    FinalValue(schema, front, e, rest, s, ps);
  }

  lemma {:induction false} AgreeingKeep<V(!new)>(schema: Schema<V>, es: seq<Effect<V>>, a: Effect<V>, b: Effect<V>,
        e: Effect<V>, s: State<V>, ps: Parameters)
    requires DistinctTargets(es) && OrdersAgree(schema, es, s, ps) && ApplyAll(schema, es, s, ps).Some?
    requires a in es && b in es && e in es && a != e && b != e
    ensures KeepsOutcome(schema, a, b, e, s, ps)
  {
    hide Outcome, ApplyAll, OrdersAgree;
    ApplyNone(schema, s, ps);
    LeavesTheSame(schema, es, [], a, s, ps);
    LeavesTheSame(schema, es, [], b, s, ps);
    LeavesTheSame(schema, es, [], e, s, ps);
    LeavesTheSame(schema, es, [a], e, s, ps);
    ApplyOneMore(schema, [], a, s, ps);
    assert [] + [a] == [a];
    var one := Install(schema, a, s, s, ps);
    assert ApplyAll(schema, [a], s, ps) == Some(one);
    if a == b {
      assert Install(schema, a, s, one, ps) == one;
    } else {
      LeavesTheSame(schema, es, [a], b, s, ps);
      LeavesTheSame(schema, es, [a, b], e, s, ps);
      ApplyOneMore(schema, [a], b, s, ps);
      assert [a] + [b] == [a, b];
      assert ApplyAll(schema, [a, b], s, ps) == Some(Install(schema, b, s, one, ps));
    }
  }

  lemma {:induction false} AgreeingAreUndisturbed<V(!new)>(schema: Schema<V>, es: seq<Effect<V>>, s: State<V>,
        ps: Parameters)
    requires DistinctTargets(es) && OrdersAgree(schema, es, s, ps) && ApplyAll(schema, es, s, ps).Some?
    ensures Undisturbed(schema, es, s, ps)
  {
    hide Outcome, ApplyAll, OrdersAgree, DistinctTargets, KeepsOutcome;
    ApplyNone(schema, s, ps);
    forall e | e in es ensures Outcome(schema, e, s, ps).Some? { LeavesTheSame(schema, es, [], e, s, ps); }
    forall a, b, e | a in es && b in es && e in es && a != e && b != e ensures KeepsOutcome(schema, a, b, e, s, ps) {
      AgreeingKeep(schema, es, a, b, e, s, ps);
    }
  }

  lemma {:induction false} OrderAccepted<V(!new)>(schema: Schema<V>, es: seq<Effect<V>>, order: seq<Effect<V>>,
        s: State<V>, ps: Parameters)
    requires DistinctTargets(es) && Undisturbed(schema, es, s, ps) && multiset(order) == multiset(es)
    ensures ApplyAll(schema, es, s, ps).Some? && ApplyAll(schema, order, s, ps) == ApplyAll(schema, es, s, ps)
  {
    hide ApplyAll, Undisturbed, Installed, DistinctTargets;
    AllInstalled(schema, es, es, s, ps);
    DistinctInAnyOrder(es, order);
    SameMembers(order, es);
    AllInstalled(schema, es, order, s, ps);
    InstalledOnce(schema, order, es, s, ApplyAll(schema, order, s, ps).value, ApplyAll(schema, es, s, ps).value, ps);
  }

  lemma {:induction false} UndisturbedAgree<V(!new)>(schema: Schema<V>, es: seq<Effect<V>>, s: State<V>,
        ps: Parameters)
    requires DistinctTargets(es) && Undisturbed(schema, es, s, ps)
    ensures ApplyAll(schema, es, s, ps).Some? && OrdersAgree(schema, es, s, ps)
  {
    hide ApplyAll, Undisturbed, DistinctTargets;
    OrderAccepted(schema, es, es, s, ps);
    forall order: seq<Effect<V>> | multiset(order) == multiset(es)
      ensures ApplyAll(schema, order, s, ps) == ApplyAll(schema, es, s, ps)
    {
      OrderAccepted(schema, es, order, s, ps);
    }
  }

  // For effects that write pairwise different variables: they are accepted, with the same result in every order,
  // exactly when each is accepted in the starting state and no two others disturb it there.  Otherwise the orders
  // agree only by all rejecting.
  lemma {:induction false} OrdersAgreeExactly<V(!new)>(schema: Schema<V>, es: seq<Effect<V>>, s: State<V>,
        ps: Parameters)
    requires DistinctTargets(es)
    ensures ApplyAll(schema, es, s, ps).Some? && OrdersAgree(schema, es, s, ps) <==> Undisturbed(schema, es, s, ps)
    ensures OrdersAgree(schema, es, s, ps)
      <==> Undisturbed(schema, es, s, ps) || EveryOrderRejects(schema, es, s, ps)
  {
    hide ApplyAll, Undisturbed, DistinctTargets;
    if Undisturbed(schema, es, s, ps) { UndisturbedAgree(schema, es, s, ps); }
    if OrdersAgree(schema, es, s, ps) && ApplyAll(schema, es, s, ps).Some? {
      AgreeingAreUndisturbed(schema, es, s, ps);
    }
    assert multiset(es) == multiset(es);
  }

  // Effects that read nothing another writes, each accepted in the starting state, are undisturbed there.
  lemma {:induction false} IndependentAreUndisturbed<V(!new)>(schema: Schema<V>, es: seq<Effect<V>>, s: State<V>,
        ps: Parameters)
    requires Independent(es) && forall e :: e in es ==> Outcome(schema, e, s, ps).Some?
    ensures Undisturbed(schema, es, s, ps)
  {
    hide Outcome, OperandsRead;
    forall a, b, e | a in es && b in es && e in es && a != e && b != e ensures KeepsOutcome(schema, a, b, e, s, ps) {
      Ignores(schema, es, a, e, s, s, ps);
      Ignores(schema, es, b, e, s, Install(schema, a, s, s, ps), ps);
    }
  }

  lemma {:induction false} Ignores<V(!new)>(schema: Schema<V>, es: seq<Effect<V>>, a: Effect<V>, e: Effect<V>,
        s: State<V>, t: State<V>, ps: Parameters)
    requires Independent(es) && a in es && e in es && a != e && t.Keys == s.Keys && Outcome(schema, a, s, ps).Some?
    ensures Outcome(schema, e, Install(schema, a, s, t, ps), ps) == Outcome(schema, e, t, ps)
    ensures Install(schema, a, s, t, ps).Keys == s.Keys
  {
    hide OperandsRead;
    var i :| 0 <= i < |es| && es[i] == a;
    var j :| 0 <= j < |es| && es[j] == e;
    OutcomeIgnoresOthers(schema, e, t, ps, a.target, Outcome(schema, a, s, ps).value);
  }

  // ---- Sorting by identifiers ----

  // Whatever the identifiers of the effects, sorting by them keeps the rule's outcome.
  ghost predicate SortingIsHarmless<V(!new)>(schema: Schema<V>, es: seq<Effect<V>>, s: State<V>, ps: Parameters) {
    forall named: seq<Sorting.Keyed<Effect<V>>> :: Values(named) == es && Sorting.DistinctKeys(named)
      ==> ApplyAll(schema, Values(Sorting.Sort(named)), s, ps) == ApplyAll(schema, es, s, ps)
  }

  // The effects under identifiers that sort into the order given.
  function Numbered<V>(order: seq<Effect<V>>): (r: seq<Sorting.Keyed<Effect<V>>>)
    ensures |r| == |order| && forall i :: 0 <= i < |r| ==> r[i] == Sorting.Keyed([i], order[i])
  {
    seq(|order|, i requires 0 <= i < |order| => Sorting.Keyed([i], order[i]))
  }

  lemma {:induction false} NumberedSorts<V>(order: seq<Effect<V>>)
    ensures Sorting.DistinctKeys(Numbered(order)) && Sorting.Sort(Numbered(order)) == Numbered(order)
    ensures Values(Numbered(order)) == order
  {
    var r := Numbered(order);
    forall i, j | 0 <= i < j < |r| ensures r[i].key != r[j].key && Sorting.LexLe(r[i].key, r[j].key) {
      assert r[i].key[0] < r[j].key[0];
    }
    Sorting.SortPermutes(r);
    Sorting.SortAscends(r);
    Sorting.DistinctByMultiset(r, Sorting.Sort(r));
    Sorting.AscendingUnique(Sorting.Sort(r), r);
  }

  lemma {:induction false} TakenOut<E>(a: seq<E>, b: seq<E>, k: nat)
    requires a != [] && k < |b| && b[k] == a[0] && multiset(a) == multiset(b)
    ensures multiset(a[1..]) == multiset(b[..k] + b[k + 1..])
  {
    Sorting.TailMultiset(a);
    assert b == b[..k] + ([b[k]] + b[k + 1..]);
  }

  // Values rearranged carry their names along.
  lemma {:induction false} NamesFollow<V>(named: seq<Sorting.Keyed<Effect<V>>>, es: seq<Effect<V>>)
    returns (r: seq<Sorting.Keyed<Effect<V>>>)
    requires multiset(Values(named)) == multiset(es)
    ensures multiset(r) == multiset(named) && Values(r) == es
    decreases |es|
  {
    Sorting.SameLength(Values(named), es);
    if es == [] {
      r := [];
      assert Values(r) == es;
    } else {
      assert es[0] in multiset(Values(named));
      var k :| 0 <= k < |named| && Values(named)[k] == es[0];
      var rest := named[..k] + named[k + 1..];
      assert Values(rest) == Values(named)[..k] + Values(named)[k + 1..];
      TakenOut(es, Values(named), k);
      var tail := NamesFollow(rest, es[1..]);
      r := [named[k]] + tail;
      assert named == named[..k] + ([named[k]] + named[k + 1..]);
      FirstValue(named[k], tail, es);
    }
  }

  lemma {:induction false} FirstValue<V>(x: Sorting.Keyed<Effect<V>>, tail: seq<Sorting.Keyed<Effect<V>>>,
        es: seq<Effect<V>>)
    requires es != [] && x.value == es[0] && Values(tail) == es[1..]
    ensures Values([x] + tail) == es
  {
    assert Values([x] + tail) == [x.value] + Values(tail);
    assert es == [es[0]] + es[1..];
  }

  // Identifiers under which sorting gives a chosen order.
  lemma {:induction false} SortsInto<V>(es: seq<Effect<V>>, order: seq<Effect<V>>)
    returns (named: seq<Sorting.Keyed<Effect<V>>>)
    requires multiset(order) == multiset(es)
    ensures Values(named) == es && Sorting.DistinctKeys(named) && Values(Sorting.Sort(named)) == order
  {
    NumberedSorts(order);
    named := NamesFollow(Numbered(order), es);
    Sorting.DistinctByMultiset(Numbered(order), named);
    Sorting.SortIgnoresOrder(Numbered(order), named);
  }

  // Sorting is harmless under all identifiers exactly when every order agrees.
  lemma {:induction false} SortingReachesEveryOrder<V(!new)>(schema: Schema<V>, es: seq<Effect<V>>, s: State<V>,
        ps: Parameters)
    ensures SortingIsHarmless(schema, es, s, ps) <==> OrdersAgree(schema, es, s, ps)
  {
    hide ApplyAll;
    if OrdersAgree(schema, es, s, ps) {
      forall named: seq<Sorting.Keyed<Effect<V>>> | Values(named) == es && Sorting.DistinctKeys(named)
        ensures ApplyAll(schema, Values(Sorting.Sort(named)), s, ps) == ApplyAll(schema, es, s, ps)
      {
        SortValues(named);
      }
    }
    if SortingIsHarmless(schema, es, s, ps) {
      forall order: seq<Effect<V>> | multiset(order) == multiset(es)
        ensures ApplyAll(schema, order, s, ps) == ApplyAll(schema, es, s, ps)
      {
        var named := SortsInto(es, order);
      }
    }
  }

  // A rule is accepted, and sorting its effects keeps its outcome whatever the identifiers, exactly when each effect
  // is accepted in the starting state and no two others disturb it there.
  lemma {:induction false} SortingKeepsExactly<V(!new)>(schema: Schema<V>, es: seq<Effect<V>>, s: State<V>,
        ps: Parameters)
    requires DistinctTargets(es)
    ensures ApplyAll(schema, es, s, ps).Some? && SortingIsHarmless(schema, es, s, ps)
      <==> Undisturbed(schema, es, s, ps)
  {
    hide Undisturbed, ApplyAll, DistinctTargets, OrdersAgree, SortingIsHarmless;
    OrdersAgreeExactly(schema, es, s, ps);
    SortingReachesEveryOrder(schema, es, s, ps);
  }

  // ---- A reader and a writer ----

  function Copy<V>(u: V, v: V): Effect<V> { Set(u, StateOf(v)) }

  function Overwrite<V>(v: V, x: Value): Effect<V> { Set(v, Literal(x)) }

  // Both variables may be written, and the values stay in their domains.
  predicate Writable<V(==)>(schema: Schema<V>, s: State<V>, u: V, v: V, x: Value) {
    && u != v && u in s && v in s && u in schema && v in schema && schema[u].mutable && schema[v].mutable
    && InDomain(schema[v].domain, x) && InDomain(schema[u].domain, x) && InDomain(schema[u].domain, s[v])
  }

  // Copying a variable does not commute with changing it.
  lemma {:induction false} ReadersNotice<V>(schema: Schema<V>, s: State<V>, ps: Parameters, u: V, v: V, x: Value)
    requires Writable(schema, s, u, v, x) && s[v] != x
    ensures !Commute(schema, Copy(u, v), Overwrite(v, x), s, ps)
    ensures ApplyAll(schema, [Copy(u, v), Overwrite(v, x)], s, ps) == Some(s[u := s[v]][v := x])
    ensures ApplyAll(schema, [Overwrite(v, x), Copy(u, v)], s, ps) == Some(s[v := x][u := x])
  {
    ApplyTwo(schema, Copy(u, v), Overwrite(v, x), s, ps);
    ApplyTwo(schema, Overwrite(v, x), Copy(u, v), s, ps);
  }

  // So inside any rule that reaches the pair with another value there, and accepts one order of it, the orders
  // differ.
  lemma {:induction false} ReadersNoticeInside<V>(schema: Schema<V>, pre: seq<Effect<V>>, post: seq<Effect<V>>,
        s: State<V>, ps: Parameters, u: V, v: V, x: Value)
    requires ApplyAll(schema, pre, s, ps).Some? && !Writes(post, u) && !Writes(post, v)
    requires var t := ApplyAll(schema, pre, s, ps).value; Writable(schema, t, u, v, x) && t[v] != x
    requires ApplyAll(schema, pre + [Copy(u, v), Overwrite(v, x)] + post, s, ps).Some?
      || ApplyAll(schema, pre + [Overwrite(v, x), Copy(u, v)] + post, s, ps).Some?
    ensures ApplyAll(schema, pre + [Copy(u, v), Overwrite(v, x)] + post, s, ps)
      != ApplyAll(schema, pre + [Overwrite(v, x), Copy(u, v)] + post, s, ps)
  {
    hide ApplyAll, Commute, Writes;
    ReadersNotice(schema, ApplyAll(schema, pre, s, ps).value, ps, u, v, x);
    NeighboursExactly(schema, pre, Copy(u, v), Overwrite(v, x), post, s, ps);
  }

  // ---- The generator's sort changes such a step ----

  function OneRule<V>(schema: Schema<V>, es: seq<Sorting.Keyed<Effect<V>>>): Game<V, ()> {
    Game(schema, map[() := [Rule([], Values(es))]], [], [])
  }

  lemma {:induction false} OneRuleStep<V>(schema: Schema<V>, es: seq<Sorting.Keyed<Effect<V>>>, s: State<V>)
    requires ValidState(schema, s)
    ensures var next := ApplyAll(schema, Values(es), s, map[]);
      Step(OneRule(schema, es), s, (), map[]) ==
        if next.Some? && ValidState(schema, next.value) then next else None
  {
    hide ApplyAll, ValidState;
    var g := OneRule(schema, es);
    var rules := g.rules[()];
    assert rules[1..] == [] && rules[0].conditions == [];
    assert RulesHold([], s, map[]) == Some(true);
    assert FailureConditions(g.failures) == [];
    var next := ApplyAll(schema, Values(es), s, map[]);
    if next.Some? { assert RunRules(schema, [], next.value, map[]) == next; }
  }

  lemma {:induction false} SortsTheOtherWay<T>(first: Sorting.Keyed<T>, second: Sorting.Keyed<T>)
    requires !Sorting.LexLe(first.key, second.key)
    ensures Sorting.Sort([first, second]) == [second, first]
  {
    hide Sorting.LexLe;
    assert [first, second][1..] == [second] && [second][1..] == [];
    assert Sorting.Sort([second]) == [second];
    assert Sorting.Insert(first, []) == [first];
    assert Sorting.Insert(first, [second]) == [second] + Sorting.Insert(first, []);
  }

  lemma {:induction false} BothOrdersAreValid<V>(schema: Schema<V>, s: State<V>, u: V, v: V, x: Value)
    requires ValidState(schema, s) && Writable(schema, s, u, v, x) && s[v] != x
    ensures ValidState(schema, s[u := s[v]][v := x]) && ValidState(schema, s[v := x][u := x])
    ensures s[u := s[v]][v := x] != s[v := x][u := x]
  {
    assert s[u := s[v]][v := x][u] == s[v] && s[v := x][u := x][u] == x;
  }

  // A rule that copies a variable and then overwrites it, under identifiers that sort the other way round: in every
  // schema and state that admit the values, sorting its effects changes the accepted step.
  lemma {:induction false} SortingChangesTheStep<V>(schema: Schema<V>, s: State<V>, u: V, v: V, x: Value,
        copyId: Sorting.Key, overwriteId: Sorting.Key)
    requires ValidState(schema, s) && Writable(schema, s, u, v, x) && s[v] != x
    requires !Sorting.LexLe(copyId, overwriteId)
    ensures var es := [Sorting.Keyed(copyId, Copy(u, v)), Sorting.Keyed(overwriteId, Overwrite(v, x))];
      && Step(OneRule(schema, es), s, (), map[]) == Some(s[u := s[v]][v := x])
      && Step(OneRule(schema, Sorting.Sort(es)), s, (), map[]) == Some(s[v := x][u := x])
      && s[u := s[v]][v := x] != s[v := x][u := x]
  {
    hide ApplyAll, ValidState, Writable;
    var first, second := Sorting.Keyed(copyId, Copy(u, v)), Sorting.Keyed(overwriteId, Overwrite(v, x));
    SortsTheOtherWay(first, second);
    assert Values([first, second]) == [Copy(u, v), Overwrite(v, x)];
    assert Values([second, first]) == [Overwrite(v, x), Copy(u, v)];
    ReadersNotice(schema, s, map[], u, v, x);
    BothOrdersAreValid(schema, s, u, v, x);
    OneRuleStep(schema, [first, second], s);
    OneRuleStep(schema, [second, first], s);
  }
}
