/** The faction strategy: four command points are directed north or south over three turns. */
module FactionGame {
  import opened Wrappers
  import opened GameKernel
  import opened GameRuns

  datatype Var = North | South | Command | Turns | LastDirected
  datatype Act = Direct(north: bool, amount: int) | Restart

  const ACTIONS: set<Act> := {Direct(true, 1), Direct(true, 2), Direct(false, 1), Direct(false, 2), Restart}

  const SCHEMA: Schema<Var> := map[
    North := Variable(IntDomain(0, 4), Int(0), true),
    South := Variable(IntDomain(0, 4), Int(0), true),
    Command := Variable(IntDomain(0, 4), Int(4), true),
    Turns := Variable(IntDomain(0, 3), Int(3), true),
    LastDirected := Variable(StrDomain({"none", "north", "south"}), Str("none"), true)]

  function RuleOf(a: Act): Rule<Var> {
    match a
    case Direct(north, amount) =>
      Rule(
        [Compare(GreaterOrEqual, StateOf(Command), Literal(Int(amount))),
          Compare(Greater, StateOf(Turns), Literal(Int(0)))],
        [Increment(if north then North else South, Literal(Int(amount))),
         Set(LastDirected, Literal(Str(if north then "north" else "south"))),
         Increment(Command, Literal(Int(-amount))), Increment(Turns, Literal(Int(-1)))])
    case Restart => Rule([], [Reset(Command), Reset(LastDirected), Reset(North), Reset(South), Reset(Turns)])
  }

  const VICTORY: seq<Condition<Var>> := [Compare(GreaterOrEqual, StateOf(North), Literal(Int(3)))]

  const GAME: Game<Var, Act> := Game(SCHEMA, map a | a in ACTIONS :: [RuleOf(a)], [VICTORY], [])

  predicate Shaped(s: State<Var>) {
    && s.Keys == {North, South, Command, Turns, LastDirected}
    && s[North].Int? && s[South].Int? && s[Command].Int? && s[Turns].Int?
    && 0 <= s[North].n <= 4 && 0 <= s[South].n <= 4 && 0 <= s[Command].n <= 4 && 0 <= s[Turns].n <= 3
  }

  lemma {:induction false} ValidIsShaped(s: State<Var>)
    requires ValidState(SCHEMA, s)
    ensures Shaped(s)
  {
    assert InDomain(SCHEMA[North].domain, s[North]) && InDomain(SCHEMA[South].domain, s[South]);
    assert InDomain(SCHEMA[Command].domain, s[Command]) && InDomain(SCHEMA[Turns].domain, s[Turns]);
  }

  // North wins by holding three points; until then the game is open.
  lemma {:induction false} Classified(s: State<Var>)
    requires Shaped(s)
    ensures Classify(GAME, s) == Some(Classification(s[North].n >= 3, false, {}))
  {
    assert VICTORY[1..] == [] && EvalList(VICTORY, s, map[]) == Some(s[North].n >= 3);
    OneEnding(GAME, s, VICTORY, s[North].n >= 3);
  }

  lemma {:induction false} RulesAreIndependent(a: Act)
    requires a in ACTIONS
    ensures HasRule(GAME, a, RuleOf(a))
  {
  }

  // Command points are only ever moved, and each turn moves at most two.
  predicate Balanced(s: State<Var>) {
    && Shaped(s) && s[North].n + s[South].n + s[Command].n == 4
    && s[North].n + s[South].n <= 2 * (3 - s[Turns].n)
  }

  lemma {:induction false} Directs(s: State<Var>, s': State<Var>, north: bool, amount: int)
    requires ValidState(SCHEMA, s) && ValidState(SCHEMA, s')
    requires Updates(SCHEMA, RuleOf(Direct(north, amount)).effects, s, s')
    ensures Shaped(s) && Shaped(s')
    ensures s'[North].n == s[North].n + (if north then amount else 0)
    ensures s'[South].n == s[South].n + (if north then 0 else amount)
    ensures s'[Command].n == s[Command].n - amount && s'[Turns].n == s[Turns].n - 1
  {
    ValidIsShaped(s);
    ValidIsShaped(s');
    var es := RuleOf(Direct(north, amount)).effects;
    assert Outcome(SCHEMA, es[0], s, map[]) == Some(s'[es[0].target]);
    assert Outcome(SCHEMA, es[2], s, map[]) == Some(s'[Command]);
    assert Outcome(SCHEMA, es[3], s, map[]) == Some(s'[Turns]);
    var other := if north then South else North;
    assert forall i :: 0 <= i < |es| ==> es[i].target != other;
  }

  lemma {:induction false} Restarts(s: State<Var>, s': State<Var>)
    requires ValidState(SCHEMA, s) && ValidState(SCHEMA, s') && Updates(SCHEMA, RuleOf(Restart).effects, s, s')
    ensures s' == Initial(SCHEMA)
  {
    ValidIsShaped(s);
    var es := RuleOf(Restart).effects;
    assert Outcome(SCHEMA, es[0], s, map[]) == Some(s'[Command]);
    assert Outcome(SCHEMA, es[1], s, map[]) == Some(s'[LastDirected]);
    assert Outcome(SCHEMA, es[2], s, map[]) == Some(s'[North]) && Outcome(SCHEMA, es[3], s, map[]) == Some(s'[South]);
    assert Outcome(SCHEMA, es[4], s, map[]) == Some(s'[Turns]);
  }

  lemma {:induction false} StepKeepsBalance(s: State<Var>, a: Act)
    requires ValidState(SCHEMA, s) && Balanced(s) && Step(GAME, s, a, map[]).Some?
    ensures var s' := Step(GAME, s, a, map[]).value; ValidState(SCHEMA, s') && Balanced(s')
  {
    hide Step, ValidState, Updates, RuleOf, Open, EvalList;
    assert a in ACTIONS by { OnlyActions(s, a); }
    RulesAreIndependent(a);
    OneRuleStep(GAME, s, a, RuleOf(a));
    var s' := Step(GAME, s, a, map[]).value;
    match a
    case Direct(north, amount) => Directs(s, s', north, amount);
    case Restart => Restarts(s, s');
  }

  lemma {:induction false} OnlyActions(s: State<Var>, a: Act)
    requires Step(GAME, s, a, map[]).Some?
    ensures a in ACTIONS
  {
  }

  lemma {:induction false} FourPointsAlways(states: seq<State<Var>>, actions: seq<Act>)
    requires |states| == |actions| + 1 && IsRun(GAME, states, actions)
    ensures ValidState(SCHEMA, states[|actions|]) && Balanced(states[|actions|])
  {
    hide Step, IsRun;
    if |actions| == 0 {
      assert states[0] == Initial(SCHEMA) by { Starts(GAME, states, actions); }
    } else {
      var n := |actions| - 1;
      LastStep(GAME, states, actions);
      FourPointsAlways(states[..n + 1], actions[..n]);
      StepKeepsBalance(states[n], actions[n]);
    }
  }

  // Until north wins, starting over is always allowed, and it gives the initial state back.
  lemma {:induction false} RestartUntilVictory(states: seq<State<Var>>, actions: seq<Act>)
    requires |states| == |actions| + 1 && IsRun(GAME, states, actions)
    ensures var s := states[|actions|];
      ValidState(SCHEMA, s) && Shaped(s)
      && Step(GAME, s, Restart, map[]) == if s[North].n < 3 then Some(Initial(SCHEMA)) else None
  {
    hide IsRun, Step;
    FourPointsAlways(states, actions);
    RestartStep(states[|actions|]);
  }

  lemma {:induction false} RestartStep(s: State<Var>)
    requires ValidState(SCHEMA, s) && Shaped(s)
    ensures Step(GAME, s, Restart, map[]) == if s[North].n < 3 then Some(Initial(SCHEMA)) else None
  {
    hide Step, Classify, ValidState, Updates, RuleOf, AllApply, AlwaysClassified, EvalList;
    Classified(s);
    RulesAreIndependent(Restart);
    RestartResets(s);
    EveryStateIsClassified();
    if s[North].n < 3 { OneRuleEnabled(GAME, s, Restart, RuleOf(Restart)); }
    OneRuleStep(GAME, s, Restart, RuleOf(Restart));
    var r := Step(GAME, s, Restart, map[]);
    if r.Some? { Restarts(s, r.value); }
  }

  lemma {:induction false} EveryStateIsClassified()
    ensures AlwaysClassified(GAME)
  {
    hide Classify;
    forall s: State<Var> | ValidState(SCHEMA, s) ensures Classify(GAME, s).Some? {
      ValidIsShaped(s);
      Classified(s);
    }
  }

  lemma {:induction false} RestartResets(s: State<Var>)
    requires ValidState(SCHEMA, s)
    ensures EvalList(RuleOf(Restart).conditions, s, map[]) == Some(true)
    ensures AllApply(SCHEMA, RuleOf(Restart).effects, s)
  {
  }

  // ---- Directing points ----

  lemma {:induction false} DirectConditions(s: State<Var>, north: bool, amount: int)
    requires Shaped(s)
    ensures EvalList(RuleOf(Direct(north, amount)).conditions, s, map[])
      == Some(s[Command].n >= amount && s[Turns].n > 0)
  {
    var c := RuleOf(Direct(north, amount)).conditions;
    assert c[1..][1..] == [] && EvalList(c[1..], s, map[]) == Some(s[Turns].n > 0);
  }

  lemma {:induction false} DirectApplies(s: State<Var>, north: bool, amount: int)
    requires Balanced(s) && 1 <= amount <= 2 && s[Command].n >= amount && s[Turns].n > 0
    ensures AllApply(SCHEMA, RuleOf(Direct(north, amount)).effects, s)
  {
    var es := RuleOf(Direct(north, amount)).effects;
    forall i | 0 <= i < |es| ensures Outcome(SCHEMA, es[i], s, map[]).Some? {
      assert es[i].target in {North, South, LastDirected, Command, Turns};
    }
  }

  // The state after directing points.
  function Directed(s: State<Var>, north: bool, amount: int): State<Var>
    requires Shaped(s)
  {
    var side := if north then North else South;
    s[side := Int(s[side].n + amount)][LastDirected := Str(if north then "north" else "south")]
     [Command := Int(s[Command].n - amount)][Turns := Int(s[Turns].n - 1)]
  }

  lemma {:induction false} DirectsTo(s: State<Var>, s': State<Var>, north: bool, amount: int)
    requires ValidState(SCHEMA, s) && ValidState(SCHEMA, s') && Shaped(s)
    requires Updates(SCHEMA, RuleOf(Direct(north, amount)).effects, s, s')
    ensures s' == Directed(s, north, amount)
  {
    hide Updates, ValidState, RuleOf;
    Directs(s, s', north, amount);
    assert s'[LastDirected] == Str(if north then "north" else "south") by { NamesTheSide(s, s', north, amount); }
  }

  lemma {:induction false} NamesTheSide(s: State<Var>, s': State<Var>, north: bool, amount: int)
    requires Updates(SCHEMA, RuleOf(Direct(north, amount)).effects, s, s')
    ensures LastDirected in s' && s'[LastDirected] == Str(if north then "north" else "south")
  {
    hide Updates;
    Touched(SCHEMA, RuleOf(Direct(north, amount)).effects, s, s', 1);
  }

  // Over every run, one or two points are directed exactly while they are left, turns are left and north has not won;
  // they go to the named side and cost a turn.
  lemma {:induction false} DirectsExactly(states: seq<State<Var>>, actions: seq<Act>, north: bool, amount: int)
    requires |states| == |actions| + 1 && IsRun(GAME, states, actions)
    ensures var s := states[|actions|];
      ValidState(SCHEMA, s) && Shaped(s)
      && Step(GAME, s, Direct(north, amount), map[])
        == if (amount == 1 || amount == 2) && s[Command].n >= amount && s[Turns].n > 0 && s[North].n < 3
        then Some(Directed(s, north, amount)) else None
  {
    hide IsRun, Step, Balanced, Directed;
    FourPointsAlways(states, actions);
    assert Shaped(states[|actions|]) by { ValidIsShaped(states[|actions|]); }
    DirectStep(states[|actions|], north, amount);
  }

  lemma {:induction false} DirectStep(s: State<Var>, north: bool, amount: int)
    requires ValidState(SCHEMA, s) && Shaped(s) && Balanced(s)
    ensures Step(GAME, s, Direct(north, amount), map[])
      == if (amount == 1 || amount == 2) && s[Command].n >= amount && s[Turns].n > 0 && s[North].n < 3
      then Some(Directed(s, north, amount)) else None
  {
    hide Step, Classify, ValidState, Updates, RuleOf, AllApply, AlwaysClassified, EvalList, Directed;
    var a := Direct(north, amount);
    var r := Step(GAME, s, a, map[]);
    Classified(s);
    if amount == 1 || amount == 2 {
      RulesAreIndependent(a);
      DirectConditions(s, north, amount);
      OneRuleStep(GAME, s, a, RuleOf(a));
      if r.Some? { DirectsTo(s, r.value, north, amount); }
      if s[Command].n >= amount && s[Turns].n > 0 && s[North].n < 3 {
        EveryStateIsClassified();
        DirectApplies(s, north, amount);
        OneRuleEnabled(GAME, s, a, RuleOf(a));
      }
    } else if r.Some? {
      OnlyActions(s, a);
      assert false;
    }
  }
}
