/** Runs of a game, and steps of actions that own one rule with independent effects. */
module GameRuns {
  import opened Wrappers
  import opened GameKernel

  // States and the accepted actions between them.
  ghost predicate IsRun<V, A>(g: Game<V, A>, states: seq<State<V>>, actions: seq<A>) {
    && |states| == |actions| + 1 && states[0] == Initial(g.schema)
    && forall k :: 0 <= k < |actions| ==> Step(g, states[k], actions[k], map[]) == Some(states[k + 1])
  }

  // A run is a shorter run and one more step.
  lemma {:induction false} LastStep<V, A>(g: Game<V, A>, states: seq<State<V>>, actions: seq<A>)
    requires IsRun(g, states, actions) && |actions| > 0
    ensures var n := |actions| - 1;
      IsRun(g, states[..n + 1], actions[..n]) && Step(g, states[n], actions[n], map[]) == Some(states[n + 1])
  {
    hide Step;
  }

  lemma {:induction false} Starts<V, A>(g: Game<V, A>, states: seq<State<V>>, actions: seq<A>)
    requires IsRun(g, states, actions)
    ensures states[0] == Initial(g.schema)
  {
  }

  ghost predicate HasRule<V, A>(g: Game<V, A>, a: A, rule: Rule<V>) {
    a in g.rules && g.rules[a] == [rule] && Independent(rule.effects)
  }

  // The classification lets the action through.
  predicate Open<V, A(==)>(g: Game<V, A>, s: State<V>, a: A) {
    var c := Classify(g, s);
    c.Some? && !c.value.terminal && (c.value.failed ==> a in c.value.recovery)
  }

  // The next state has every target's outcome and everything else as it was.
  ghost predicate Updates<V(!new)>(schema: Schema<V>, es: seq<Effect<V>>, s: State<V>, s': State<V>) {
    && s'.Keys == s.Keys
    && (forall i :: 0 <= i < |es| ==> es[i].target in s && Outcome(schema, es[i], s, map[]) == Some(s'[es[i].target]))
    && (forall v :: v in s && (forall i :: 0 <= i < |es| ==> es[i].target != v) ==> s'[v] == s[v])
  }

  lemma {:induction false} UnfoldStep<V, A>(g: Game<V, A>, s: State<V>, a: A, rule: Rule<V>)
    requires a in g.rules && g.rules[a] == [rule] && ValidState(g.schema, s)
    ensures var next := ApplyAll(g.schema, rule.effects, s, map[]);
      Step(g, s, a, map[]) == (
        if Open(g, s, a) && EvalList(rule.conditions, s, map[]) == Some(true) && next.Some?
          && ValidState(g.schema, next.value) && Classify(g, next.value).Some?
        then next else None)
  {
    hide ApplyAll, Classify, EvalList, ValidState;
    assert [rule][1..] == [] && [rule][0] == rule;
    assert RulesHold([], s, map[]) == Some(true);
    var next := ApplyAll(g.schema, rule.effects, s, map[]);
    if next.Some? { assert RunRules(g.schema, [], next.value, map[]) == next; }
  }

  lemma {:induction false} EffectsUpdate<V(!new)>(schema: Schema<V>, es: seq<Effect<V>>, s: State<V>)
    requires Independent(es)
    ensures var r := ApplyAll(schema, es, s, map[]);
      && (r.Some? ==> Updates(schema, es, s, r.value))
      && (r.Some? <==> forall i :: 0 <= i < |es| ==> Outcome(schema, es[i], s, map[]).Some?)
  {
    hide Outcome, Independent, ApplyAll;
    IndependentEffects(schema, es, s, map[]);
  }

  // What an accepted step does.
  lemma {:induction false} OneRuleStep<V(!new), A>(g: Game<V, A>, s: State<V>, a: A, rule: Rule<V>)
    requires HasRule(g, a, rule) && ValidState(g.schema, s)
    ensures var r := Step(g, s, a, map[]);
      (r.Some? ==>
        && Open(g, s, a) && EvalList(rule.conditions, s, map[]) == Some(true)
        && Updates(g.schema, rule.effects, s, r.value) && ValidState(g.schema, r.value))
  {
    hide Outcome, Classify, EvalList, Independent, ApplyAll, ValidState, Updates, Open, Step;
    UnfoldStep(g, s, a, rule);
    EffectsUpdate(g.schema, rule.effects, s);
  }

  predicate AllApply<V>(schema: Schema<V>, es: seq<Effect<V>>, s: State<V>) {
    forall i :: 0 <= i < |es| ==> Outcome(schema, es[i], s, map[]).Some?
  }

  ghost predicate AlwaysClassified<V(!new), A(!new)>(g: Game<V, A>) {
    forall s :: ValidState(g.schema, s) ==> Classify(g, s).Some?
  }

  // When there is one.
  lemma {:induction false} OneRuleEnabled<V(!new), A(!new)>(g: Game<V, A>, s: State<V>, a: A, rule: Rule<V>)
    requires HasRule(g, a, rule) && ValidState(g.schema, s) && AlwaysClassified(g)
    requires Open(g, s, a) && EvalList(rule.conditions, s, map[]) == Some(true) && AllApply(g.schema, rule.effects, s)
    ensures Step(g, s, a, map[]).Some?
  {
    hide Outcome, Classify, EvalList, Independent, ApplyAll, ValidState, Updates, Open, Step;
    UnfoldStep(g, s, a, rule);
    EffectsUpdate(g.schema, rule.effects, s);
    UpdatesStayValid(g.schema, rule.effects, s, ApplyAll(g.schema, rule.effects, s, map[]).value);
  }

  lemma {:induction false} UpdatesStayValid<V(!new)>(schema: Schema<V>, es: seq<Effect<V>>, s: State<V>, s': State<V>)
    requires ValidState(schema, s) && Updates(schema, es, s, s')
    ensures ValidState(schema, s')
  {
    forall v | v in s' ensures InDomain(schema[v].domain, s'[v]) {
      if i :| 0 <= i < |es| && es[i].target == v { assert Outcome(schema, es[i], s, map[]) == Some(s'[v]); }
    }
  }

  // One ending, and no failure or one.
  lemma {:induction false} HoldingOne<V>(c: seq<Condition<V>>, s: State<V>, b: bool)
    requires EvalList(c, s, map[]) == Some(b)
    ensures Holding([c], s) == Some([b]) && Count([b]) == if b then 1 else 0
  {
    assert [c][1..] == [] && [c][0] == c;
    assert Holding([c][1..], s) == Some([]);
    assert [b] + [] == [b];
    assert Count([b][1..]) == 0;
  }

  lemma {:induction false} OneEnding<V, A>(g: Game<V, A>, s: State<V>, c: seq<Condition<V>>, ended: bool)
    requires g.endings == [c] && g.failures == [] && EvalList(c, s, map[]) == Some(ended)
    ensures Classify(g, s) == Some(Classification(ended, false, {}))
  {
    hide EvalList;
    HoldingOne(c, s, ended);
    assert FailureConditions(g.failures) == [];
  }

  lemma {:induction false} OneEndingOneFailure<V, A>(g: Game<V, A>, s: State<V>, c: seq<Condition<V>>,
        f: Failure<V, A>, ended: bool, failing: bool)
    requires g.endings == [c] && g.failures == [f]
    requires EvalList(c, s, map[]) == Some(ended) && EvalList(f.conditions, s, map[]) == Some(failing)
    ensures Classify(g, s) == Some(
      if ended then Classification(true, false, {})
      else Classification(false, failing, if failing then f.recovery else {}))
  {
    hide EvalList;
    HoldingOne(c, s, ended);
    HoldingOne(f.conditions, s, failing);
    assert FailureConditions([f]) == [f.conditions];
    assert [f][1..] == [] && [failing][1..] == [];
    assert Recovery(g.failures[1..], [failing][1..]) == None;
  }

  // What an update leaves in the target of one effect, by kind.
  lemma {:induction false} Touched<V(!new)>(schema: Schema<V>, es: seq<Effect<V>>, s: State<V>, s': State<V>, i: nat)
    requires Updates(schema, es, s, s') && i < |es|
    ensures es[i].target in s && es[i].target in schema && es[i].target in s'
    ensures es[i].Reset? ==> s'[es[i].target] == schema[es[i].target].initial
    ensures es[i].Set? && es[i].operand.Literal? ==> s'[es[i].target] == es[i].operand.value
    ensures es[i].Increment? && es[i].operand.Literal? && es[i].operand.value.Int?
      ==> s[es[i].target].Int? && s'[es[i].target] == Int(s[es[i].target].n + es[i].operand.value.n)
  {
    assert Outcome(schema, es[i], s, map[]) == Some(s'[es[i].target]);
  }

  lemma {:induction false} SameKeys<V(!new)>(schema: Schema<V>, es: seq<Effect<V>>, s: State<V>, s': State<V>)
    requires Updates(schema, es, s, s')
    ensures s'.Keys == s.Keys
  {
  }

  lemma {:induction false} Untouched<V(!new)>(schema: Schema<V>, es: seq<Effect<V>>, s: State<V>, s': State<V>, v: V)
    requires Updates(schema, es, s, s') && v in s && forall i :: 0 <= i < |es| ==> es[i].target != v
    ensures v in s' && s'[v] == s[v]
  {
  }
}
