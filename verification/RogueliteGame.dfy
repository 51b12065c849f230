/** The modular roguelite: a run goes three storylets deep, hazards cost health, and a failed run is recovered. */
module RogueliteGame {
  import opened Wrappers
  import opened GameKernel
  import opened GameRuns

  datatype Var = Active | Depth | Health | Deaths
  datatype Act = Advance | Endure | Fall | Recover

  const SCHEMA: Schema<Var> := map[
    Active := Variable(BoolDomain, Bool(true), true),
    Depth := Variable(IntDomain(0, 3), Int(0), true),
    Health := Variable(IntDomain(0, 2), Int(2), true),
    Deaths := Variable(IntDomain(0, 99), Int(0), true)]

  function Is(v: Var, b: bool): Condition<Var> { Compare(Equal, StateOf(v), Literal(Bool(b))) }

  function RuleOf(a: Act): Rule<Var> {
    match a
    case Advance =>
      Rule([Compare(Less, StateOf(Depth), Literal(Int(3))), Is(Active, true)], [Increment(Depth, Literal(Int(1)))])
    case Endure =>
      Rule([Compare(Greater, StateOf(Health), Literal(Int(1))), Is(Active, true)],
        [Increment(Health, Literal(Int(-1)))])
    case Fall =>
      Rule([Compare(Equal, StateOf(Health), Literal(Int(1))), Is(Active, true)],
        [Set(Active, Literal(Bool(false))), Increment(Health, Literal(Int(-1)))])
    case Recover =>
      Rule([Compare(LessOrEqual, StateOf(Health), Literal(Int(0))), Is(Active, false)],
        [Reset(Active), Increment(Deaths, Literal(Int(1))), Reset(Depth), Reset(Health)])
  }

  const VICTORY: seq<Condition<Var>> := [Compare(GreaterOrEqual, StateOf(Depth), Literal(Int(3)))]

  const RUN_FAILED: Failure<Var, Act> :=
    Failure([Compare(LessOrEqual, StateOf(Health), Literal(Int(0))), Is(Active, false)], {Recover})

  const GAME: Game<Var, Act> :=
    Game(SCHEMA, map a | a in {Advance, Endure, Fall, Recover} :: [RuleOf(a)], [VICTORY], [RUN_FAILED])

  predicate Shaped(s: State<Var>) {
    && s.Keys == {Active, Depth, Health, Deaths}
    && s[Active].Bool? && s[Depth].Int? && s[Health].Int? && s[Deaths].Int?
    && 0 <= s[Depth].n <= 3 && 0 <= s[Health].n <= 2 && 0 <= s[Deaths].n <= 99
  }

  lemma {:induction false} ValidIsShaped(s: State<Var>)
    requires ValidState(SCHEMA, s)
    ensures Shaped(s)
  {
    assert InDomain(SCHEMA[Active].domain, s[Active]) && InDomain(SCHEMA[Depth].domain, s[Depth]);
    assert InDomain(SCHEMA[Health].domain, s[Health]) && InDomain(SCHEMA[Deaths].domain, s[Deaths]);
  }

  lemma {:induction false} TwoConditions(a: Condition<Var>, b: Condition<Var>, s: State<Var>, x: bool, y: bool)
    requires Eval(a, s, map[]) == Some(x) && Eval(b, s, map[]) == Some(y)
    ensures EvalList([a, b], s, map[]) == Some(x && y)
  {
    assert [a, b][1..] == [b] && [b][1..] == [];
    assert EvalList([b], s, map[]) == Some(y);
  }

  lemma {:induction false} Classified(s: State<Var>)
    requires Shaped(s)
    ensures Classify(GAME, s) == Some(
      if s[Depth].n >= 3 then Classification(true, false, {})
      else if s[Health].n == 0 && !s[Active].b then Classification(false, true, {Recover})
      else Classification(false, false, {}))
  {
    hide Classify;
    assert VICTORY[1..] == [] && EvalList(VICTORY, s, map[]) == Some(s[Depth].n >= 3);
    TwoConditions(RUN_FAILED.conditions[0], RUN_FAILED.conditions[1], s, s[Health].n <= 0, !s[Active].b);
    OneEndingOneFailure(GAME, s, VICTORY, RUN_FAILED, s[Depth].n >= 3, s[Health].n <= 0 && !s[Active].b);
  }

  lemma {:induction false} EveryStateIsClassified()
    ensures AlwaysClassified(GAME)
  {
    hide Classify;
    forall s: State<Var> | ValidState(SCHEMA, s) ensures Classify(GAME, s).Some? {
      ValidIsShaped(s);
      Classified(s);
    }
  }

  lemma {:induction false} RulesAreIndependent(a: Act)
    ensures HasRule(GAME, a, RuleOf(a))
  {
  }

  // When each rule's conditions hold.
  lemma {:induction false} Conditions(s: State<Var>, a: Act)
    requires Shaped(s)
    ensures EvalList(RuleOf(a).conditions, s, map[]) == Some(
      match a
      case Advance => s[Depth].n < 3 && s[Active].b
      case Endure => s[Health].n > 1 && s[Active].b
      case Fall => s[Health].n == 1 && s[Active].b
      case Recover => s[Health].n == 0 && !s[Active].b)
  {
    var c := RuleOf(a).conditions;
    assert Eval(c[1], s, map[]) == Some(s[Active].b == (a != Recover));
    TwoConditions(c[0], c[1], s, Eval(c[0], s, map[]).value, s[Active].b == (a != Recover));
  }

  // The next state of each action, number by number.
  function After(s: State<Var>, a: Act): State<Var>
    requires Shaped(s)
  {
    match a
    case Advance => s[Depth := Int(s[Depth].n + 1)]
    case Endure => s[Health := Int(s[Health].n - 1)]
    case Fall => s[Active := Bool(false)][Health := Int(s[Health].n - 1)]
    case Recover => s[Active := Bool(true)][Deaths := Int(s[Deaths].n + 1)][Depth := Int(0)][Health := Int(2)]
  }

  lemma {:induction false} Becomes(s: State<Var>, a: Act, s': State<Var>)
    requires ValidState(SCHEMA, s) && Shaped(s) && Updates(SCHEMA, RuleOf(a).effects, s, s')
    ensures s' == After(s, a)
  {
    match a
    case Advance => AdvanceBecomes(s, s');
    case Endure => EndureBecomes(s, s');
    case Fall => FallBecomes(s, s');
    case Recover => RecoverBecomes(s, s');
  }

  lemma {:induction false} AdvanceBecomes(s: State<Var>, s': State<Var>)
    requires Shaped(s) && Updates(SCHEMA, RuleOf(Advance).effects, s, s')
    ensures s' == After(s, Advance)
  {
    var es := RuleOf(Advance).effects;
    assert Outcome(SCHEMA, es[0], s, map[]) == Some(s'[Depth]);
  }

  lemma {:induction false} EndureBecomes(s: State<Var>, s': State<Var>)
    requires Shaped(s) && Updates(SCHEMA, RuleOf(Endure).effects, s, s')
    ensures s' == After(s, Endure)
  {
    var es := RuleOf(Endure).effects;
    assert Outcome(SCHEMA, es[0], s, map[]) == Some(s'[Health]);
  }

  lemma {:induction false} FallBecomes(s: State<Var>, s': State<Var>)
    requires Shaped(s) && Updates(SCHEMA, RuleOf(Fall).effects, s, s')
    ensures s' == After(s, Fall)
  {
    var es := RuleOf(Fall).effects;
    assert Outcome(SCHEMA, es[0], s, map[]) == Some(s'[Active]) && Outcome(SCHEMA, es[1], s, map[]) == Some(s'[Health]);
    assert s'[Depth] == s[Depth] && s'[Deaths] == s[Deaths];
  }

  lemma {:induction false} RecoverBecomes(s: State<Var>, s': State<Var>)
    requires Shaped(s) && Updates(SCHEMA, RuleOf(Recover).effects, s, s')
    ensures s' == After(s, Recover)
  {
    hide Updates;
    var es := RuleOf(Recover).effects;
    Touched(SCHEMA, es, s, s', 0);
    Touched(SCHEMA, es, s, s', 1);
    Touched(SCHEMA, es, s, s', 2);
    Touched(SCHEMA, es, s, s', 3);
    assert s'.Keys == s.Keys by { SameKeys(SCHEMA, es, s, s'); }
  }

  // A run is active exactly while it has health, and only an active run reaches the end.
  predicate Sound(s: State<Var>) {
    Shaped(s) && (s[Active].b <==> s[Health].n > 0) && (s[Active].b || s[Depth].n < 3)
  }

  lemma {:induction false} StepKeepsSound(s: State<Var>, a: Act)
    requires ValidState(SCHEMA, s) && Sound(s) && Step(GAME, s, a, map[]).Some?
    ensures var s' := Step(GAME, s, a, map[]).value; ValidState(SCHEMA, s') && Sound(s') && s' == After(s, a)
  {
    hide Step, ValidState, Updates, Classify, RuleOf, EvalList;
    RulesAreIndependent(a);
    OneRuleStep(GAME, s, a, RuleOf(a));
    Classified(s);
    Conditions(s, a);
    Becomes(s, a, Step(GAME, s, a, map[]).value);
    ValidIsShaped(Step(GAME, s, a, map[]).value);
  }

  lemma {:induction false} ActiveMeansHealthy(states: seq<State<Var>>, actions: seq<Act>)
    requires |states| == |actions| + 1 && IsRun(GAME, states, actions)
    ensures ValidState(SCHEMA, states[|actions|]) && Sound(states[|actions|])
  {
    hide Step, IsRun;
    if |actions| == 0 {
      assert states[0] == Initial(SCHEMA) by { Starts(GAME, states, actions); }
    } else {
      var n := |actions| - 1;
      LastStep(GAME, states, actions);
      ActiveMeansHealthy(states[..n + 1], actions[..n]);
      StepKeepsSound(states[n], actions[n]);
    }
  }

  predicate Ready(s: State<Var>, a: Act)
    requires Shaped(s)
  {
    s[Depth].n < 3 &&
    match a
    case Advance => s[Active].b
    case Endure => s[Health].n == 2
    case Fall => s[Health].n == 1
    case Recover => !s[Active].b && s[Deaths].n < 99
  }

  // When an action of a reachable state is accepted.
  lemma {:induction false} Accepted(s: State<Var>, a: Act)
    requires ValidState(SCHEMA, s) && Sound(s)
    ensures Step(GAME, s, a, map[]).Some? <==> Ready(s, a)
  {
    hide Step, ValidState, Updates, Classify, EvalList, AllApply, AlwaysClassified, RuleOf;
    RulesAreIndependent(a);
    Classified(s);
    Conditions(s, a);
    OneRuleStep(GAME, s, a, RuleOf(a));
    if Step(GAME, s, a, map[]).Some? {
      Becomes(s, a, Step(GAME, s, a, map[]).value);
      ValidIsShaped(Step(GAME, s, a, map[]).value);
    }
    if Ready(s, a) {
      EveryStateIsClassified();
      Applies(s, a);
      OneRuleEnabled(GAME, s, a, RuleOf(a));
    }
  }

  lemma {:induction false} Applies(s: State<Var>, a: Act)
    requires ValidState(SCHEMA, s) && Shaped(s)
    requires Ready(s, a)
    ensures AllApply(SCHEMA, RuleOf(a).effects, s)
  {
  }

  // Over every run: a failed run can be recovered exactly while fewer than 99 deaths are recorded, recovering
  // starts a fresh run with one more death, and otherwise some action is always open until victory.
  lemma {:induction false} FailedRunsRecover(states: seq<State<Var>>, actions: seq<Act>)
    requires |states| == |actions| + 1 && IsRun(GAME, states, actions)
    ensures var s := states[|actions|];
      && ValidState(SCHEMA, s) && Sound(s)
      && (!s[Active].b ==>
        && (Step(GAME, s, Recover, map[]).Some? <==> s[Deaths].n < 99)
        && (s[Deaths].n < 99 ==>
          Step(GAME, s, Recover, map[]) == Some(Initial(SCHEMA)[Deaths := Int(s[Deaths].n + 1)])))
      && ((exists a :: Step(GAME, s, a, map[]).Some?) <==> s[Depth].n < 3 && (s[Active].b || s[Deaths].n < 99))
  {
    hide Step, IsRun, ValidState;
    ActiveMeansHealthy(states, actions);
    var s := states[|actions|];
    Accepted(s, Recover);
    Accepted(s, Advance);
    forall a | Step(GAME, s, a, map[]).Some? ensures s[Depth].n < 3 && (s[Active].b || s[Deaths].n < 99) {
      Accepted(s, a);
    }
    if !s[Active].b && s[Deaths].n < 99 {
      StepKeepsSound(s, Recover);
      assert After(s, Recover) == Initial(SCHEMA)[Deaths := Int(s[Deaths].n + 1)];
    }
  }
}
