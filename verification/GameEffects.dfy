/** What each computing effect leaves in its target, said of the value before and the value after. */
module GameEffects {
  import opened Wrappers
  import opened GameKernel

  predicate IndexInto(v: Option<Value>, items: seq<string>) {
    v.Some? && v.value.Int? && 0 <= v.value.n < |items|
  }

  // Items `i` and `j` are exchanged and the others stand where they stood.
  predicate Exchanged(was: seq<string>, now: seq<string>, i: int, j: int) {
    && |now| == |was| && 0 <= i < |was| && 0 <= j < |was|
    && now[i] == was[j] && now[j] == was[i]
    && forall k :: 0 <= k < |was| && k != i && k != j ==> now[k] == was[k]
  }

  lemma {:induction false} ExchangeKeepsItems(was: seq<string>, now: seq<string>, i: nat, j: nat)
    requires Exchanged(was, now, i, j)
    ensures multiset(now) == multiset(was)
  {
    assert now == was[i := was[j]][j := was[i]];
  }

  // A swap succeeds exactly on a list and two places in it; it exchanges the two items, and so has the same items.
  lemma {:induction false} SwapExchanges<V>(schema: Schema<V>, target: V, first: Operand<V>, second: Operand<V>,
        s: State<V>, ps: Parameters)
    requires target in schema && target in s
    ensures var i, j := Read(first, s, ps), Read(second, s, ps);
      var r := Computed(schema, Swap(target, first, second), s, ps);
      && (r.Some? <==> s[target].Strs? && IndexInto(i, s[target].items) && IndexInto(j, s[target].items))
      && (r.Some? ==>
        && r.value.Strs? && Exchanged(s[target].items, r.value.items, i.value.n, j.value.n)
        && multiset(r.value.items) == multiset(s[target].items))
  {
    var i, j := Read(first, s, ps), Read(second, s, ps);
    var r := Computed(schema, Swap(target, first, second), s, ps);
    if r.Some? { ExchangeKeepsItems(s[target].items, r.value.items, i.value.n, j.value.n); }
  }

  // The same swap again restores the list, when it does not read where to swap from the list itself.
  lemma {:induction false} SwapUndoesItself<V>(schema: Schema<V>, target: V, first: Operand<V>, second: Operand<V>,
        s: State<V>, ps: Parameters)
    requires target in schema && target in s && Computed(schema, Swap(target, first, second), s, ps).Some?
    requires !ReadsVariable(first, target) && !ReadsVariable(second, target)
    ensures var e := Swap(target, first, second);
      Computed(schema, e, s[target := Computed(schema, e, s, ps).value], ps) == Some(s[target])
  {
    var e := Swap(target, first, second);
    var once := Computed(schema, e, s, ps).value;
    var twice := Computed(schema, e, s[target := once], ps);
    assert Read(first, s[target := once], ps) == Read(first, s, ps);
    assert Read(second, s[target := once], ps) == Read(second, s, ps);
    assert twice.value.items == s[target].items;
  }

  predicate IsNumber(v: Option<Value>) { v.Some? && v.value.Int? }

  // An increment adds exactly, and fails exactly off the integers or outside the safe range.
  lemma {:induction false} IncrementAdds<V>(schema: Schema<V>, target: V, o: Operand<V>, s: State<V>, ps: Parameters)
    requires target in schema && target in s
    ensures var amount, r := Read(o, s, ps), Computed(schema, Increment(target, o), s, ps);
      && (r.Some? ==> s[target].Int? && IsNumber(amount) && r.value.Int?)
      && (r.Some? ==> r.value.n - amount.value.n == s[target].n)
      && (s[target].Int? && IsNumber(amount) ==>
        (r.Some? <==> -9007199254740991 <= s[target].n + amount.value.n <= 9007199254740991))
  {
  }

  // An append puts the item after the others, exactly when it is a text that is not among them.
  lemma {:induction false} AppendAddsOne<V>(schema: Schema<V>, target: V, o: Operand<V>, s: State<V>, ps: Parameters)
    requires target in schema && target in s
    ensures var item, r := Read(o, s, ps), Computed(schema, AppendUnique(target, o), s, ps);
      && (r.Some? <==> s[target].Strs? && item.Some? && item.value.Str? && item.value.s !in s[target].items)
      && (r.Some? ==> r.value.Strs? && Appended(s[target].items, r.value.items, item.value.s))
      && (r.Some? && NoRepeats(s[target].items) ==> NoRepeats(r.value.items))
  {
  }

  predicate Appended(was: seq<string>, now: seq<string>, item: string) {
    |now| == |was| + 1 && now[|was|] == item && forall k :: 0 <= k < |was| ==> now[k] == was[k]
  }

  // ---- Conditions ----

  // On integers the comparisons are those of their names; equality compares any two values.
  lemma {:induction false} ComparisonsAre(a: int, b: int, l: Value, r: Value)
    ensures Compared(Less, Int(a), Int(b)) == Some(a < b) && Compared(LessOrEqual, Int(a), Int(b)) == Some(a <= b)
    ensures Compared(Greater, Int(a), Int(b)) == Some(a > b) && Compared(GreaterOrEqual, Int(a), Int(b)) == Some(a >= b)
    ensures Compared(Equal, l, r) == Some(l == r) && Compared(NotEqual, l, r) == Some(l != r)
    ensures !(l.Int? && r.Int?) ==> Compared(Less, l, r).None? && Compared(GreaterOrEqual, l, r).None?
  {
  }

  // A conjunction holds exactly when every part does, a disjunction when one does; both fail when a part does.
  lemma {:induction false} PartsDecide<V>(parts: seq<Condition<V>>, s: State<V>, ps: Parameters, all: bool)
    ensures var r := EvalAll(parts, s, ps, all);
      && (r.Some? <==> forall i :: 0 <= i < |parts| ==> Eval(parts[i], s, ps).Some?)
      && (r.Some? && all ==> (r.value <==> forall i :: 0 <= i < |parts| ==> Eval(parts[i], s, ps) == Some(true)))
      && (r.Some? && !all ==> (r.value <==> exists i :: 0 <= i < |parts| && Eval(parts[i], s, ps) == Some(true)))
  {
    if parts != [] {
      PartsDecide(parts[1..], s, ps, all);
      forall i | 1 <= i < |parts| ensures parts[i] == parts[1..][i - 1] {}
      if j :| 0 <= j < |parts[1..]| && Eval(parts[1..][j], s, ps) == Some(true) {
        assert parts[j + 1] == parts[1..][j];
      }
    }
  }
}
