/** The sports career: three planned matches a season, their points counted for the season and for the career. */
module SportsGame {
  import opened Wrappers
  import opened GameKernel
  import opened GameRuns

  datatype Var = Round | Standings | Career | Team | Opponents | Phase | LastPlan | LastOpponent | LastResult
  datatype Outcome = Draw | Loss | Win
  datatype Act = Plan(aggressive: bool) | Record(round: int, outcome: Outcome) | Restart

  const ACTIONS: set<Act> :=
    {Plan(true), Plan(false), Restart, Record(1, Draw), Record(1, Loss), Record(1, Win), Record(2, Draw),
     Record(2, Loss), Record(2, Win), Record(3, Draw), Record(3, Loss), Record(3, Win)}

  const OPPONENTS: seq<string> := ["mountain_fc", "river_fc", "valley_fc"]

  const SCHEMA: Schema<Var> := map[
    Round := Variable(IntDomain(0, 3), Int(0), true),
    Standings := Variable(IntDomain(0, 9), Int(0), true),
    Career := Variable(IntDomain(0, 999), Int(0), true),
    Team := Variable(StrDomain({"harbor_fc"}), Str("harbor_fc"), false),
    Opponents := Variable(StrsDomain(3, 3, {"mountain_fc", "river_fc", "valley_fc"}), Strs(OPPONENTS), false),
    Phase := Variable(StrDomain({"planning", "result_pending"}), Str("planning"), true),
    LastPlan := Variable(StrDomain({"aggressive", "balanced", "pending"}), Str("pending"), true),
    LastOpponent := Variable(StrDomain({"mountain_fc", "none", "river_fc", "valley_fc"}), Str("none"), true),
    LastResult := Variable(StrDomain({"draw", "loss", "pending", "win"}), Str("pending"), true)]

  function Points(o: Outcome): int { match o case Draw => 1 case Loss => 0 case Win => 3 }

  function OutcomeName(o: Outcome): string { match o case Draw => "draw" case Loss => "loss" case Win => "win" }

  function Opponent(round: int): string {
    if round == 1 then "mountain_fc" else if round == 2 then "river_fc" else "valley_fc"
  }

  function Equals(v: Var, x: Value): Condition<Var> { Compare(Equal, StateOf(v), Literal(x)) }

  function RuleOf(a: Act): Rule<Var> {
    match a
    case Plan(aggressive) =>
      Rule([Equals(Phase, Str("planning")), Compare(Less, StateOf(Round), Literal(Int(3)))],
        [Set(LastPlan, Literal(Str(if aggressive then "aggressive" else "balanced"))),
         Set(Phase, Literal(Str("result_pending")))])
    case Record(round, outcome) =>
      Rule([Equals(Phase, Str("result_pending")), Equals(Round, Int(round - 1)),
            IndexValid(Opponents, Literal(Int(round - 1))), Equals(Team, Str("harbor_fc"))],
        [Increment(Career, Literal(Int(Points(outcome)))), Increment(Round, Literal(Int(1))),
         Set(LastOpponent, Literal(Str(Opponent(round)))), Set(LastResult, Literal(Str(OutcomeName(outcome)))),
         Set(Phase, Literal(Str("planning"))), Increment(Standings, Literal(Int(Points(outcome))))])
    case Restart =>
      Rule([], [Reset(LastPlan), Reset(LastResult), Reset(LastOpponent), Reset(Phase), Reset(Round), Reset(Standings)])
  }

  const COMPLETE: seq<Condition<Var>> :=
    [Compare(GreaterOrEqual, StateOf(Round), Literal(Int(3))),
      Compare(GreaterOrEqual, StateOf(Standings), Literal(Int(5)))]

  const GAME: Game<Var, Act> := Game(SCHEMA, map a | a in ACTIONS :: [RuleOf(a)], [COMPLETE], [])

  predicate Shaped(s: State<Var>) {
    && s.Keys == {Round, Standings, Career, Team, Opponents, Phase, LastPlan, LastOpponent, LastResult}
    && s[Round].Int? && s[Standings].Int? && s[Career].Int? && s[Team].Str? && s[Opponents].Strs? && s[Phase].Str?
    && 0 <= s[Round].n <= 3 && 0 <= s[Standings].n <= 9 && 0 <= s[Career].n <= 999
    && s[Team].s == "harbor_fc" && |s[Opponents].items| == 3 && s[Phase].s in {"planning", "result_pending"}
  }

  lemma {:induction false} ValidIsShaped(s: State<Var>)
    requires ValidState(SCHEMA, s)
    ensures Shaped(s)
  {
    assert InDomain(SCHEMA[Round].domain, s[Round]) && InDomain(SCHEMA[Standings].domain, s[Standings]);
    assert InDomain(SCHEMA[Career].domain, s[Career]) && InDomain(SCHEMA[Team].domain, s[Team]);
    assert InDomain(SCHEMA[Opponents].domain, s[Opponents]) && InDomain(SCHEMA[Phase].domain, s[Phase]);
  }

  predicate Complete(s: State<Var>)
    requires Shaped(s)
  {
    s[Round].n >= 3 && s[Standings].n >= 5
  }

  lemma {:induction false} Classified(s: State<Var>)
    requires Shaped(s)
    ensures Classify(GAME, s) == Some(Classification(Complete(s), false, {}))
  {
    assert COMPLETE[1..][1..] == [] && EvalList(COMPLETE[1..], s, map[]) == Some(s[Standings].n >= 5);
    assert EvalList(COMPLETE, s, map[]) == Some(Complete(s));
    OneEnding(GAME, s, COMPLETE, Complete(s));
  }

  lemma {:induction false} EveryStateIsClassified()
    ensures AlwaysClassified(GAME)
  {
    hide Classify;
    forall s: State<Var> | ValidState(SCHEMA, s) ensures Classify(GAME, s).Some? {
      ValidIsShaped(s);
      Classified(s);
    }
  }

  lemma {:induction false} RulesAreIndependent(a: Act)
    requires a in ACTIONS
    ensures HasRule(GAME, a, RuleOf(a))
  {
    hide RuleOf, Independent;
    match a
    case Plan(aggressive) => PlanIsIndependent(aggressive);
    case Record(round, outcome) => RecordIsIndependent(round, outcome);
    case Restart => RestartIsIndependent();
  }

  lemma {:induction false} PlanIsIndependent(aggressive: bool)
    ensures Independent(RuleOf(Plan(aggressive)).effects)
  {
  }

  lemma {:induction false} RestartIsIndependent()
    ensures Independent(RuleOf(Restart).effects)
  {
  }

  lemma {:induction false} RecordIsIndependent(round: int, outcome: Outcome)
    ensures Independent(RuleOf(Record(round, outcome)).effects)
  {
    hide Points, Opponent, OutcomeName;
  }

  lemma {:induction false} OnlyActions(s: State<Var>, a: Act)
    requires Step(GAME, s, a, map[]).Some?
    ensures a in ACTIONS
  {
  }

  predicate Pending(s: State<Var>)
    requires Shaped(s)
  {
    s[Phase].s == "result_pending"
  }

  lemma {:induction false} PlanConditions(s: State<Var>, aggressive: bool)
    requires Shaped(s)
    ensures EvalList(RuleOf(Plan(aggressive)).conditions, s, map[]) == Some(!Pending(s) && s[Round].n < 3)
  {
    var c := RuleOf(Plan(aggressive)).conditions;
    assert c[1..][1..] == [] && EvalList(c[1..], s, map[]) == Some(s[Round].n < 3);
  }

  lemma {:induction false} RecordConditions(s: State<Var>, round: int, outcome: Outcome)
    requires Shaped(s) && 1 <= round <= 3
    ensures EvalList(RuleOf(Record(round, outcome)).conditions, s, map[]) == Some(Pending(s) && s[Round].n == round - 1)
  {
    var c := RuleOf(Record(round, outcome)).conditions;
    var c1, c2, c3 := c[1..], c[1..][1..], c[1..][1..][1..];
    assert c3[1..] == [] && c3[0] == c[3] && EvalList(c3, s, map[]) == Some(true);
    assert c2[0] == c[2] && EvalList(c2, s, map[]) == Some(true);
    assert c1[0] == c[1] && EvalList(c1, s, map[]) == Some(s[Round].n == round - 1);
  }

  lemma {:induction false} Plans(s: State<Var>, s': State<Var>, aggressive: bool)
    requires Shaped(s) && Updates(SCHEMA, RuleOf(Plan(aggressive)).effects, s, s') && Shaped(s')
    ensures Pending(s') && s'[Round] == s[Round] && s'[Standings] == s[Standings] && s'[Career] == s[Career]
  {
    hide Updates;
    var es := RuleOf(Plan(aggressive)).effects;
    Touched(SCHEMA, es, s, s', 1);
    Untouched(SCHEMA, es, s, s', Round);
    Untouched(SCHEMA, es, s, s', Standings);
    Untouched(SCHEMA, es, s, s', Career);
  }

  lemma {:induction false} Records(s: State<Var>, s': State<Var>, round: int, outcome: Outcome)
    requires Shaped(s) && Updates(SCHEMA, RuleOf(Record(round, outcome)).effects, s, s') && Shaped(s')
    ensures !Pending(s') && s'[Round].n == s[Round].n + 1
    ensures s'[Standings].n == s[Standings].n + Points(outcome) && s'[Career].n == s[Career].n + Points(outcome)
  {
    hide Updates;
    var es := RuleOf(Record(round, outcome)).effects;
    Touched(SCHEMA, es, s, s', 0);
    Touched(SCHEMA, es, s, s', 1);
    Touched(SCHEMA, es, s, s', 4);
    Touched(SCHEMA, es, s, s', 5);
  }

  // The report names the round's opponent and the result.
  lemma {:induction false} Reports(s: State<Var>, s': State<Var>, round: int, outcome: Outcome)
    requires Shaped(s) && Updates(SCHEMA, RuleOf(Record(round, outcome)).effects, s, s') && 1 <= round <= 3
    ensures LastOpponent in s' && s'[LastOpponent] == Str(["mountain_fc", "river_fc", "valley_fc"][round - 1])
    ensures LastResult in s' && s'[LastResult] == Str(
      match outcome
      case Win => "win"
      case Draw => "draw"
      case Loss => "loss")
  {
    hide Updates;
    var es := RuleOf(Record(round, outcome)).effects;
    Touched(SCHEMA, es, s, s', 2);
    Touched(SCHEMA, es, s, s', 3);
  }

  lemma {:induction false} Restarts(s: State<Var>, s': State<Var>)
    requires Shaped(s) && Updates(SCHEMA, RuleOf(Restart).effects, s, s') && Shaped(s')
    ensures !Pending(s') && s'[Round].n == 0 && s'[Standings].n == 0 && s'[Career] == s[Career]
  {
    hide Updates;
    var es := RuleOf(Restart).effects;
    Touched(SCHEMA, es, s, s', 3);
    Touched(SCHEMA, es, s, s', 4);
    Touched(SCHEMA, es, s, s', 5);
    Untouched(SCHEMA, es, s, s', Career);
  }

  // ---- Over all runs ----

  // Three points for a win and one for a draw.
  function Scored(a: Act): int {
    match a
    case Record(_, Win) => 3
    case Record(_, Draw) => 1
    case _ => 0
  }

  // All points ever recorded, and those since the last restart.
  function Earned(actions: seq<Act>): int {
    if actions == [] then 0 else Earned(actions[..|actions| - 1]) + Scored(actions[|actions| - 1])
  }

  function ThisSeason(actions: seq<Act>): int {
    if actions == [] || actions[|actions| - 1] == Restart then 0
    else ThisSeason(actions[..|actions| - 1]) + Scored(actions[|actions| - 1])
  }

  predicate Accounted(s: State<Var>, actions: seq<Act>) {
    && Shaped(s) && s[Career].n == Earned(actions) && s[Standings].n == ThisSeason(actions)
    && s[Standings].n <= 3 * s[Round].n && (Pending(s) ==> s[Round].n < 3)
  }

  lemma {:induction false} StepKeepsAccounts(s: State<Var>, actions: seq<Act>, a: Act, s': State<Var>)
    requires ValidState(SCHEMA, s) && Accounted(s, actions) && Step(GAME, s, a, map[]) == Some(s')
    ensures ValidState(SCHEMA, s') && Accounted(s', actions + [a])
  {
    hide Step, ValidState, Updates, Classify, RuleOf, EvalList;
    OnlyActions(s, a);
    RulesAreIndependent(a);
    OneRuleStep(GAME, s, a, RuleOf(a));
    ValidIsShaped(s');
    assert (actions + [a])[..|actions|] == actions;
    match a
    case Plan(aggressive) =>
      PlanConditions(s, aggressive);
      Plans(s, s', aggressive);
    case Record(round, outcome) =>
      RecordConditions(s, round, outcome);
      Records(s, s', round, outcome);
    case Restart => Restarts(s, s');
  }

  lemma {:induction false} NothingYet()
    ensures ValidState(SCHEMA, Initial(SCHEMA)) && Accounted(Initial(SCHEMA), [])
  {
    hide ValidState;
    InitialIsValid();
  }

  lemma {:induction false} InitialIsValid()
    ensures ValidState(SCHEMA, Initial(SCHEMA))
  {
    forall v | v in SCHEMA ensures InDomain(SCHEMA[v].domain, SCHEMA[v].initial) {
      if v == Opponents { assert NoRepeats(OPPONENTS); }
    }
  }

  // Career points are all the points ever recorded; standings are the points since the last restart and at most
  // three a round.
  lemma {:induction false} PointsAreAccounted(states: seq<State<Var>>, actions: seq<Act>)
    requires |states| == |actions| + 1 && IsRun(GAME, states, actions)
    ensures ValidState(SCHEMA, states[|actions|]) && Accounted(states[|actions|], actions)
  {
    hide Step, IsRun, ValidState, Accounted;
    if |actions| == 0 {
      Starts(GAME, states, actions);
      NothingYet();
    } else {
      var n := |actions| - 1;
      LastStep(GAME, states, actions);
      PointsAreAccounted(states[..n + 1], actions[..n]);
      StepKeepsAccounts(states[n], actions[..n], actions[n], states[n + 1]);
      assert actions[..n] + [actions[n]] == actions;
    }
  }

  // ---- Which actions are accepted ----

  // A plan between matches, the result of the match at hand while the career's points last, a restart until the
  // season is won.
  predicate Ready(s: State<Var>, a: Act)
    requires Shaped(s)
  {
    match a
    case Plan(_) => s[Phase].s == "planning" && s[Round].n < 3
    case Record(round, _) =>
      s[Phase].s == "result_pending" && round == s[Round].n + 1 && s[Career].n + Scored(a) <= 999
    case Restart => s[Round].n < 3 || s[Standings].n < 5
  }

  lemma {:induction false} RecordApplies(s: State<Var>, round: int, outcome: Outcome, i: nat)
    requires Shaped(s) && 1 <= round <= 3 && s[Round].n == round - 1 && s[Standings].n <= 3 * s[Round].n && i < 6
    requires s[Career].n + Points(outcome) <= 999
    ensures GameKernel.Outcome(SCHEMA, RuleOf(Record(round, outcome)).effects[i], s, map[]).Some?
  {
    var e := RuleOf(Record(round, outcome)).effects[i];
    assert e.target in {Career, Round, LastOpponent, LastResult, Phase, Standings};
  }

  lemma {:induction false} Applies(s: State<Var>, a: Act)
    requires ValidState(SCHEMA, s) && Shaped(s) && a in ACTIONS && Ready(s, a)
    requires s[Standings].n <= 3 * s[Round].n
    ensures AllApply(SCHEMA, RuleOf(a).effects, s)
  {
    match a
    case Plan(aggressive) => PlanApplies(s, aggressive);
    case Record(round, outcome) =>
      hide RuleOf;
      assert |RuleOf(a).effects| == 6 by { SixEffects(round, outcome); }
      forall i | 0 <= i < 6 ensures GameKernel.Outcome(SCHEMA, RuleOf(a).effects[i], s, map[]).Some? {
        RecordApplies(s, round, outcome, i);
      }
    case Restart => RestartApplies(s);
  }

  lemma {:induction false} SixEffects(round: int, outcome: Outcome)
    ensures |RuleOf(Record(round, outcome)).effects| == 6
  {
  }

  lemma {:induction false} PlanApplies(s: State<Var>, aggressive: bool)
    requires Shaped(s)
    ensures AllApply(SCHEMA, RuleOf(Plan(aggressive)).effects, s)
  {
  }

  lemma {:induction false} RestartApplies(s: State<Var>)
    requires Shaped(s)
    ensures AllApply(SCHEMA, RuleOf(Restart).effects, s)
  {
  }

  lemma {:induction false} Conditions(s: State<Var>, a: Act)
    requires Shaped(s) && a in ACTIONS
    ensures EvalList(RuleOf(a).conditions, s, map[]) == Some(
      match a
      case Plan(_) => !Pending(s) && s[Round].n < 3
      case Record(round, _) => Pending(s) && s[Round].n == round - 1
      case Restart => true)
  {
    match a
    case Plan(aggressive) => PlanConditions(s, aggressive);
    case Record(round, outcome) => RecordConditions(s, round, outcome);
    case Restart => assert RuleOf(Restart).conditions == [];
  }

  lemma {:induction false} CareerStaysBelow(s: State<Var>, s': State<Var>, round: int, outcome: Outcome)
    requires Shaped(s) && Updates(SCHEMA, RuleOf(Record(round, outcome)).effects, s, s') && Shaped(s')
    ensures s[Career].n + Points(outcome) <= 999
  {
    Records(s, s', round, outcome);
  }

  lemma {:induction false} RecordsKnown(s: State<Var>, round: int, outcome: Outcome)
    requires Shaped(s) && round == s[Round].n + 1 && s[Round].n < 3
    ensures Record(round, outcome) in ACTIONS
  {
  }

  // Over every run, an action is accepted exactly when it is ready.
  lemma {:induction false} Accepted(states: seq<State<Var>>, actions: seq<Act>, a: Act)
    requires |states| == |actions| + 1 && IsRun(GAME, states, actions)
    ensures var s := states[|actions|];
      Shaped(s) && (Step(GAME, s, a, map[]).Some? <==> Ready(s, a))
  {
    hide Step, IsRun, ValidState, Updates, Classify, EvalList, AllApply, AlwaysClassified, RuleOf;
    PointsAreAccounted(states, actions);
    var s := states[|actions|];
    if a in ACTIONS {
      RulesAreIndependent(a);
      Classified(s);
      Conditions(s, a);
      OneRuleStep(GAME, s, a, RuleOf(a));
      if Step(GAME, s, a, map[]).Some? {
        ValidIsShaped(Step(GAME, s, a, map[]).value);
        if a.Record? { CareerStaysBelow(s, Step(GAME, s, a, map[]).value, a.round, a.outcome); }
      }
      if Ready(s, a) {
        EveryStateIsClassified();
        Applies(s, a);
        OneRuleEnabled(GAME, s, a, RuleOf(a));
      }
    } else {
      if Step(GAME, s, a, map[]).Some? { OnlyActions(s, a); }
      if Ready(s, a) && a.Record? { RecordsKnown(s, a.round, a.outcome); }
    }
  }

  // So a pending result can always be recorded: a loss, at least, is accepted however many points there are.
  lemma {:induction false} PendingResultsAreRecorded(states: seq<State<Var>>, actions: seq<Act>)
    requires |states| == |actions| + 1 && IsRun(GAME, states, actions)
    ensures var s := states[|actions|];
      && ValidState(SCHEMA, s) && Shaped(s)
      && (Pending(s) ==> Step(GAME, s, Record(s[Round].n + 1, Loss), map[]).Some?)
  {
    hide Step, IsRun, ValidState;
    PointsAreAccounted(states, actions);
    var s := states[|actions|];
    Accepted(states, actions, Record(s[Round].n + 1, Loss));
  }
}
