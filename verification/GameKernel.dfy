/**
 The game kernel: typed state variables, conditions, effects that reject the whole transition, and a step that
 applies a rule's effects one after another to a copy of the state.
 */
module GameKernel {
  import opened Wrappers
  import Sorting

  datatype Value = Int(n: int) | Bool(b: bool) | Str(s: string) | Strs(items: seq<string>)

  const MAX_SAFE_INTEGER := 9007199254740991

  datatype Domain = IntDomain(minimum: int, maximum: int) | BoolDomain | StrDomain(allowed: set<string>)
    | StrsDomain(minItems: int, maxItems: int, allowed: set<string>)

  predicate NoRepeats(items: seq<string>) { forall i, j :: 0 <= i < j < |items| ==> items[i] != items[j] }

  predicate InDomain(d: Domain, v: Value) {
    match (d, v)
    case (IntDomain(lo, hi), Int(n)) => -MAX_SAFE_INTEGER <= n <= MAX_SAFE_INTEGER && lo <= n <= hi
    case (BoolDomain, Bool(_)) => true
    case (StrDomain(allowed), Str(s)) => s in allowed
    case (StrsDomain(lo, hi, allowed), Strs(items)) =>
      NoRepeats(items) && lo <= |items| <= hi && forall i :: 0 <= i < |items| ==> items[i] in allowed
    case _ => false
  }

  datatype Variable = Variable(domain: Domain, initial: Value, mutable: bool)

  // A state assigns a value to every variable of the schema.
  type State<V> = map<V, Value>
  type Schema<V> = map<V, Variable>

  predicate ValidState<V>(schema: Schema<V>, s: State<V>) {
    s.Keys == schema.Keys && forall v :: v in s ==> InDomain(schema[v].domain, s[v])
  }

  function Initial<V>(schema: Schema<V>): State<V> { map v | v in schema :: schema[v].initial }

  datatype Operand<V> = Literal(value: Value) | StateOf(variable: V) | Parameter(name: string)

  type Parameters = map<string, Value>

  // None is the kernel's error.
  function Read<V>(o: Operand<V>, s: State<V>, ps: Parameters): Option<Value> {
    match o
    case Literal(v) => Some(v)
    case StateOf(v) => if v in s then Some(s[v]) else None
    case Parameter(p) => if p in ps then Some(ps[p]) else None
  }

  // ---- Conditions ----

  datatype Comparison = Equal | NotEqual | Less | LessOrEqual | Greater | GreaterOrEqual

  datatype Condition<V> = Constant(holds: bool) | Compare(comparison: Comparison, left: Operand<V>, right: Operand<V>)
    | All(parts: seq<Condition<V>>) | Any(parts: seq<Condition<V>>) | Not(part: Condition<V>)
    | IndexValid(list: V, index: Operand<V>) | Distance(left: Operand<V>, right: Operand<V>, distance: int)

  function Compared(c: Comparison, l: Value, r: Value): Option<bool> {
    if c == Equal then Some(l == r)
    else if c == NotEqual then Some(l != r)
    else if !l.Int? || !r.Int? then None
    else match c
      case Less => Some(l.n < r.n)
      case LessOrEqual => Some(l.n <= r.n)
      case Greater => Some(l.n > r.n)
      case GreaterOrEqual => Some(l.n >= r.n)
  }

  function Eval<V>(c: Condition<V>, s: State<V>, ps: Parameters): Option<bool> {
    match c
    case Constant(b) => Some(b)
    case Compare(comparison, l, r) =>
      var x, y := Read(l, s, ps), Read(r, s, ps);
      if x.None? || y.None? then None else Compared(comparison, x.value, y.value)
    case All(parts) => EvalAll(parts, s, ps, true)
    case Any(parts) => EvalAll(parts, s, ps, false)
    case Not(part) => (var r := Eval(part, s, ps); if r.None? then None else Some(!r.value))
    case IndexValid(list, index) =>
      if list !in s || !s[list].Strs? then None
      else
        var i := Read(index, s, ps);
        if i.None? then None else Some(i.value.Int? && 0 <= i.value.n < |s[list].items|)
    case Distance(l, r, d) =>
      var x, y := Read(l, s, ps), Read(r, s, ps);
      if x.None? || y.None? || !x.value.Int? || !y.value.Int? then None
      else Some((if x.value.n < y.value.n then y.value.n - x.value.n else x.value.n - y.value.n) == d)
  }

  // Every part is evaluated; `all` asks for their conjunction, otherwise the disjunction.
  function EvalAll<V>(parts: seq<Condition<V>>, s: State<V>, ps: Parameters, all: bool): Option<bool> {
    if parts == [] then Some(all)
    else
      var first, rest := Eval(parts[0], s, ps), EvalAll(parts[1..], s, ps, all);
      if first.None? || rest.None? then None
      else Some(if all then first.value && rest.value else first.value || rest.value)
  }

  // A collection of conditions stops at the first that fails.
  function EvalList<V>(cs: seq<Condition<V>>, s: State<V>, ps: Parameters): Option<bool> {
    if cs == [] then Some(true)
    else
      var first := Eval(cs[0], s, ps);
      if first.None? then None else if !first.value then Some(false) else EvalList(cs[1..], s, ps)
  }

  // ---- Effects ----

  datatype Effect<V> = Set(target: V, operand: Operand<V>) | Reset(target: V)
    | Increment(target: V, operand: Operand<V>)
    | Swap(target: V, first: Operand<V>, second: Operand<V>) | AppendUnique(target: V, operand: Operand<V>)

  // The value an effect leaves in its target, before the domain check.
  function Computed<V>(schema: Schema<V>, e: Effect<V>, s: State<V>, ps: Parameters): Option<Value>
    requires e.target in schema && e.target in s
  {
    var current := s[e.target];
    match e
    case Set(_, o) => Read(o, s, ps)
    case Reset(v) => Some(schema[v].initial)
    case Increment(_, o) =>
      var amount := Read(o, s, ps);
      if amount.None? || !current.Int? || !amount.value.Int? then None
      else
        var result := current.n + amount.value.n;
        if -MAX_SAFE_INTEGER <= result <= MAX_SAFE_INTEGER then Some(Int(result)) else None
    case Swap(_, first, second) =>
      var i, j := Read(first, s, ps), Read(second, s, ps);
      if i.None? || j.None? || !current.Strs? || !i.value.Int? || !j.value.Int? then None
      else if !(0 <= i.value.n < |current.items|) || !(0 <= j.value.n < |current.items|) then None
      else Some(Strs(current.items[i.value.n := current.items[j.value.n]][j.value.n := current.items[i.value.n]]))
    case AppendUnique(_, o) =>
      var item := Read(o, s, ps);
      if item.None? || !current.Strs? || !item.value.Str? || item.value.s in current.items then None
      else Some(Strs(current.items + [item.value.s]))
  }

  // The value an effect leaves, or None for a rejected transition.
  function Outcome<V>(schema: Schema<V>, e: Effect<V>, s: State<V>, ps: Parameters): Option<Value> {
    if e.target !in schema || e.target !in s || !schema[e.target].mutable then None
    else
      var r := Computed(schema, e, s, ps);
      if r.None? || !InDomain(schema[e.target].domain, r.value) then None else r
  }

  function Apply<V>(schema: Schema<V>, e: Effect<V>, s: State<V>, ps: Parameters): Option<State<V>> {
    var r := Outcome(schema, e, s, ps);
    if r.None? then None else Some(s[e.target := r.value])
  }

  // One after another, each seeing what the ones before it left.
  function ApplyAll<V>(schema: Schema<V>, es: seq<Effect<V>>, s: State<V>, ps: Parameters): Option<State<V>> {
    if es == [] then Some(s)
    else
      var next := Apply(schema, es[0], s, ps);
      if next.None? then None else ApplyAll(schema, es[1..], next.value, ps)
  }

  // ---- Effects that keep out of each other's way ----

  predicate ReadsVariable<V(==)>(o: Operand<V>, v: V) { o == StateOf(v) }

  predicate OperandsRead<V(==)>(e: Effect<V>, v: V) {
    match e
    case Set(_, o) => ReadsVariable(o, v)
    case Reset(_) => false
    case Increment(_, o) => ReadsVariable(o, v)
    case Swap(_, first, second) => ReadsVariable(first, v) || ReadsVariable(second, v)
    case AppendUnique(_, o) => ReadsVariable(o, v)
  }

  // No effect writes what another writes or reads.
  predicate Independent<V(==)>(es: seq<Effect<V>>) {
    forall i, j :: 0 <= i < |es| && 0 <= j < |es| && i != j
      ==> es[i].target != es[j].target && !OperandsRead(es[j], es[i].target)
  }

  lemma {:induction false} OutcomeIgnoresOthers<V>(schema: Schema<V>, e: Effect<V>, s: State<V>, ps: Parameters,
        v: V, x: Value)
    requires e.target != v && !OperandsRead(e, v) && v in s
    ensures Outcome(schema, e, s[v := x], ps) == Outcome(schema, e, s, ps)
  {
  }

  // Independent effects all see the state the rule started from.
  lemma {:induction false} IndependentEffects<V>(schema: Schema<V>, es: seq<Effect<V>>, s: State<V>, ps: Parameters)
    requires Independent(es)
    ensures var r := ApplyAll(schema, es, s, ps);
      && (r.Some? <==> forall i :: 0 <= i < |es| ==> Outcome(schema, es[i], s, ps).Some?)
      && (r.Some? ==>
        && r.value.Keys == s.Keys
        && (forall i :: 0 <= i < |es| ==>
          es[i].target in s && r.value[es[i].target] == Outcome(schema, es[i], s, ps).value)
        && (forall v :: v in s && (forall i :: 0 <= i < |es| ==> es[i].target != v) ==> r.value[v] == s[v]))
  {
    if es != [] {
      var first := Outcome(schema, es[0], s, ps);
      if first.Some? {
        var next := s[es[0].target := first.value];
        forall i | 1 <= i < |es| ensures Outcome(schema, es[i], next, ps) == Outcome(schema, es[i], s, ps) {
          OutcomeIgnoresOthers(schema, es[i], s, ps, es[0].target, first.value);
        }
        IndependentEffects(schema, es[1..], next, ps);
        forall i | 1 <= i < |es| ensures es[i] == es[1..][i - 1] {}
      }
    }
  }

  lemma {:induction false} PermutationStaysIndependent<V>(a: seq<Effect<V>>, b: seq<Effect<V>>)
    requires multiset(a) == multiset(b) && Independent(a)
    ensures Independent(b)
  {
    forall i, j | 0 <= i < |b| && 0 <= j < |b| && i != j
      ensures b[i].target != b[j].target && !OperandsRead(b[j], b[i].target)
    {
      assert b[i] in multiset(a) && b[j] in multiset(a);
      var p :| 0 <= p < |a| && a[p] == b[i];
      var q :| 0 <= q < |a| && a[q] == b[j];
      if p == q {
        Sorting.Twice(b, if i < j then i else j, if i < j then j else i);
        OnceByTarget(a, p);
        assert false;
      }
    }
  }

  lemma {:induction false} OnceByTarget<V>(a: seq<Effect<V>>, p: nat)
    requires p < |a| && Independent(a)
    ensures multiset(a)[a[p]] <= 1
  {
    assert a == a[..p] + [a[p]] + a[p + 1..];
    assert a[p] !in a[..p] && a[p] !in a[p + 1..];
  }

  // The order of independent effects does not matter: the same states are accepted, with the same next state.
  lemma {:induction false} OrderDoesNotMatter<V>(schema: Schema<V>, a: seq<Effect<V>>, b: seq<Effect<V>>,
        s: State<V>, ps: Parameters)
    requires multiset(a) == multiset(b) && Independent(a)
    ensures ApplyAll(schema, a, s, ps) == ApplyAll(schema, b, s, ps)
  {
    hide Outcome, ApplyAll, Independent;
    PermutationStaysIndependent(a, b);
    IndependentEffects(schema, a, s, ps);
    IndependentEffects(schema, b, s, ps);
    SameEffects(a, b);
    SameEffects(b, a);
    var x, y := ApplyAll(schema, a, s, ps), ApplyAll(schema, b, s, ps);
    assert x.Some? <==> y.Some?;
    if x.Some? {
      forall v | v in s ensures x.value[v] == y.value[v] {
        if i :| 0 <= i < |a| && a[i].target == v {
          var j :| 0 <= j < |b| && b[j] == a[i];
        } else {
          forall j | 0 <= j < |b| ensures b[j].target != v { assert exists i :: 0 <= i < |a| && a[i] == b[j]; }
        }
      }
      assert x.value == y.value;
    }
  }

  lemma {:induction false} SameEffects<V>(a: seq<Effect<V>>, b: seq<Effect<V>>)
    requires multiset(a) == multiset(b)
    ensures forall i :: 0 <= i < |a| ==> exists j :: 0 <= j < |b| && b[j] == a[i]
  {
    forall i | 0 <= i < |a| ensures exists j :: 0 <= j < |b| && b[j] == a[i] {
      assert a[i] in multiset(a) && a[i] in multiset(b) && a[i] in b;
    }
  }

  // ---- The generator's sort by identifier ----

  function Values<V>(es: seq<Sorting.Keyed<Effect<V>>>): (r: seq<Effect<V>>)
    ensures |r| == |es| && forall i :: 0 <= i < |r| ==> r[i] == es[i].value
  {
    seq(|es|, i requires 0 <= i < |es| => es[i].value)
  }

  // Sorting a rule's effects by id preserves its step.
  lemma {:induction false} SortingKeepsTheStep<V>(schema: Schema<V>, es: seq<Sorting.Keyed<Effect<V>>>, s: State<V>,
        ps: Parameters)
    requires Independent(Values(es))
    ensures ApplyAll(schema, Values(Sorting.Sort(es)), s, ps) == ApplyAll(schema, Values(es), s, ps)
  {
    hide ApplyAll, Independent;
    SortValues(es);
    OrderDoesNotMatter(schema, Values(es), Values(Sorting.Sort(es)), s, ps);
  }

  lemma {:induction false} ValuesCons<V>(x: Sorting.Keyed<Effect<V>>, s: seq<Sorting.Keyed<Effect<V>>>)
    ensures multiset(Values([x] + s)) == multiset{x.value} + multiset(Values(s))
  {
    assert Values([x] + s) == [x.value] + Values(s);
  }

  lemma {:induction false} InsertValues<V>(x: Sorting.Keyed<Effect<V>>, s: seq<Sorting.Keyed<Effect<V>>>)
    ensures multiset(Values(Sorting.Insert(x, s))) == multiset{x.value} + multiset(Values(s))
  {
    hide Values;
    ValuesCons(x, s);
    if s != [] && !Sorting.LexLe(x.key, s[0].key) {
      InsertValues(x, s[1..]);
      ValuesCons(s[0], Sorting.Insert(x, s[1..]));
      ValuesCons(s[0], s[1..]);
      assert [s[0]] + s[1..] == s;
    }
  }

  lemma {:induction false} SortValues<V>(s: seq<Sorting.Keyed<Effect<V>>>)
    ensures multiset(Values(Sorting.Sort(s))) == multiset(Values(s))
  {
    hide Values;
    if s != [] {
      SortValues(s[1..]);
      InsertValues(s[0], Sorting.Sort(s[1..]));
      ValuesCons(s[0], s[1..]);
      assert [s[0]] + s[1..] == s;
    }
  }

  // ---- The step ----

  datatype Rule<V> = Rule(conditions: seq<Condition<V>>, effects: seq<Effect<V>>)
  datatype Failure<!V, !A> = Failure(conditions: seq<Condition<V>>, recovery: set<A>)

  // The rules of each action in order; endings and failures of the whole game.
  datatype Game<!V, !A> = Game(schema: Schema<V>, rules: map<A, seq<Rule<V>>>, endings: seq<seq<Condition<V>>>,
    failures: seq<Failure<V, A>>)

  // Which of the collections hold, in order; None on the first error.
  function Holding<V>(collections: seq<seq<Condition<V>>>, s: State<V>): Option<seq<bool>> {
    if collections == [] then Some([])
    else
      var first, rest := EvalList(collections[0], s, map[]), Holding(collections[1..], s);
      if first.None? || rest.None? then None else Some([first.value] + rest.value)
  }

  function Count(bs: seq<bool>): nat {
    if bs == [] then 0 else (if bs[0] then 1 else 0) + Count(bs[1..])
  }

  datatype Classification<!A> = Classification(terminal: bool, failed: bool, recovery: set<A>)

  // The actions every active failure recovers by.
  function Recovery<V, A>(failures: seq<Failure<V, A>>, active: seq<bool>): Option<set<A>>
    requires |failures| == |active|
  {
    if failures == [] then None
    else
      var rest := Recovery(failures[1..], active[1..]);
      if !active[0] then rest
      else if rest.None? then Some(failures[0].recovery)
      else Some(failures[0].recovery * rest.value)
  }

  // Two endings at once are an error; an ending hides every failure.
  function Classify<V, A>(g: Game<V, A>, s: State<V>): Option<Classification<A>> {
    var endings := Holding(g.endings, s);
    if endings.None? || Count(endings.value) > 1 then None
    else if Count(endings.value) == 1 then Some(Classification(true, false, {}))
    else
      var failing := Holding(FailureConditions(g.failures), s);
      if failing.None? || |failing.value| != |g.failures| then None
      else
        var recovery := Recovery(g.failures, failing.value);
        Some(Classification(false, recovery.Some?, if recovery.Some? then recovery.value else {}))
  }

  function FailureConditions<V, A>(fs: seq<Failure<V, A>>): (r: seq<seq<Condition<V>>>)
    ensures |r| == |fs| && forall i :: 0 <= i < |r| ==> r[i] == fs[i].conditions
  {
    seq(|fs|, i requires 0 <= i < |fs| => fs[i].conditions)
  }

  function RulesHold<V>(rules: seq<Rule<V>>, s: State<V>, ps: Parameters): Option<bool> {
    if rules == [] then Some(true)
    else
      var first := EvalList(rules[0].conditions, s, ps);
      if first.None? then None else if !first.value then Some(false) else RulesHold(rules[1..], s, ps)
  }

  function RunRules<V>(schema: Schema<V>, rules: seq<Rule<V>>, s: State<V>, ps: Parameters): Option<State<V>> {
    if rules == [] then Some(s)
    else
      var next := ApplyAll(schema, rules[0].effects, s, ps);
      if next.None? then None else RunRules(schema, rules[1..], next.value, ps)
  }

  // The program raises an error instead of an answer for a state outside its schema, and for one it cannot classify.
  predicate Raises<V, A>(g: Game<V, A>, s: State<V>, action: A) {
    !ValidState(g.schema, s) || (action in g.rules && Classify(g, s).None?)
  }

  // The next state, or None for a rejection or an error.
  function Step<V, A(==)>(g: Game<V, A>, s: State<V>, action: A, ps: Parameters): Option<State<V>> {
    if !ValidState(g.schema, s) || action !in g.rules || g.rules[action] == [] then None
    else
      var now := Classify(g, s);
      if now.None? || now.value.terminal || (now.value.failed && action !in now.value.recovery) then None
      else if RulesHold(g.rules[action], s, ps) != Some(true) then None
      else
        var next := RunRules(g.schema, g.rules[action], s, ps);
        if next.None? || !ValidState(g.schema, next.value) || Classify(g, next.value).None? then None else next
  }

  datatype Verdict = Accepted | Rejected | Raised

  // The transition as the kernel runs it, on a copy of the state; anything but acceptance leaves the state unchanged.
  method Transition<V(==), A(==)>(g: Game<V, A>, before: State<V>, action: A, ps: Parameters)
    returns (verdict: Verdict, after: State<V>)
    ensures verdict.Raised? <==> Raises(g, before, action)
    ensures verdict.Accepted? <==> Step(g, before, action, ps).Some?
    ensures after == if verdict.Accepted? then Step(g, before, action, ps).value else before
  {
    if !ValidState(g.schema, before) { return Raised, before; }
    if action !in g.rules { return Rejected, before; }
    var now := Classify(g, before);
    if now.None? { return Raised, before; }
    if now.value.terminal { return Rejected, before; }
    if now.value.failed && action !in now.value.recovery { return Rejected, before; }
    var rules := g.rules[action];
    if rules == [] || RulesHold(rules, before, ps) != Some(true) { return Rejected, before; }
    var candidate := before;
    for i := 0 to |rules|
      invariant RunRules(g.schema, rules, before, ps) == RunRules(g.schema, rules[i..], candidate, ps)
    {
      var effects := rules[i].effects;
      ghost var start := candidate;
      for j := 0 to |effects|
        invariant ApplyAll(g.schema, effects, start, ps) == ApplyAll(g.schema, effects[j..], candidate, ps)
      {
        var next := Apply(g.schema, effects[j], candidate, ps);
        if next.None? { return Rejected, before; }
        candidate := next.value;
        assert effects[j..][1..] == effects[j + 1..];
      }
      assert effects[|effects|..] == [] && rules[i..][1..] == rules[i + 1..];
    }
    assert rules[|rules|..] == [];
    if !ValidState(g.schema, candidate) || Classify(g, candidate).None? { return Rejected, before; }
    return Accepted, candidate;
  }
}
