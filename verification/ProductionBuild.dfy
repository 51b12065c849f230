/**
 Building the production schemas from the generator's own last output.  Each of the five schemas it reads back is
 rewritten at some places of its tree, and rewriting what was written changes nothing.  But the schemas it makes afresh
 take their output variants from the receipt as it was read, before the rewrite, so a second build can change them.
 */
module ProductionBuild {
  import opened Wrappers
  import opened JsonTree
  import opened ProductionRewrites
  import opened ProductionOutputs

  // ---- Places in a schema ----

  lemma {:induction false} GetStep(node: Json, path: seq<string>)
    requires path != [] && node.Object?
    ensures Get(node, path) ==
      (var child := Lookup(node.members, path[0]); if child.None? then None else Get(child.value, path[1..]))
  {
  }

  // What was assigned is there.
  lemma {:induction false} GetAssigned(node: Json, path: seq<string>, key: string, value: Json)
    requires AssignIn(node, path, key, value).Some?
    ensures Get(AssignIn(node, path, key, value).value, path + [key]) == Some(value)
    decreases |path|
  {
    var out := AssignIn(node, path, key, value).value;
    GetStep(out, path + [key]);
    if path == [] {
      LookupAssigned(node.members, key, value, key);
      assert ([] + [key])[1..] == [];
    } else {
      var child := Lookup(node.members, path[0]).value;
      LookupAssigned(node.members, path[0], AssignIn(child, path[1..], key, value).value, path[0]);
      assert (path + [key])[1..] == path[1..] + [key];
      GetAssigned(child, path[1..], key, value);
    }
  }

  lemma {:induction false} AssignHeld(ms: seq<Member>, key: string, value: Json)
    requires Lookup(ms, key) == Some(value)
    ensures Assign(ms, key, value) == ms
  {
    if ms[0].key != key { AssignHeld(ms[1..], key, value); }
    assert ms == [ms[0]] + ms[1..];
  }

  // Assigning what is there already changes nothing.
  lemma {:induction false} AssignSame(node: Json, path: seq<string>, key: string, value: Json)
    requires Get(node, path + [key]) == Some(value)
    ensures AssignIn(node, path, key, value) == Some(node)
    decreases |path|
  {
    assert node.Object?;
    GetStep(node, path + [key]);
    if path == [] {
      assert ([] + [key])[1..] == [];
      AssignHeld(node.members, key, value);
    } else {
      assert (path + [key])[1..] == path[1..] + [key];
      var child := Lookup(node.members, path[0]).value;
      AssignSame(child, path[1..], key, value);
      AssignHeld(node.members, path[0], child);
    }
  }

  // Two places on different branches.
  predicate Apart(p: seq<string>, q: seq<string>) {
    exists k :: 0 <= k < |p| && k < |q| && p[k] != q[k]
  }

  // Assigning in one place leaves every place on another branch.
  lemma {:induction false} GetElsewhere(node: Json, path: seq<string>, key: string, value: Json, other: seq<string>)
    requires AssignIn(node, path, key, value).Some? && Apart(path + [key], other)
    ensures Get(AssignIn(node, path, key, value).value, other) == Get(node, other)
    decreases |path|
  {
    var here := path + [key];
    var k :| 0 <= k < |here| && k < |other| && here[k] != other[k];
    var out := AssignIn(node, path, key, value).value;
    GetStep(node, other);
    GetStep(out, other);
    if path == [] {
      LookupAssigned(node.members, key, value, other[0]);
    } else {
      var child := Lookup(node.members, path[0]).value;
      var inner := AssignIn(child, path[1..], key, value).value;
      LookupAssigned(node.members, path[0], inner, other[0]);
      if other[0] == path[0] {
        assert (path[1..] + [key])[k - 1] == here[k] && other[1..][k - 1] == other[k];
        GetElsewhere(child, path[1..], key, value, other[1..]);
      }
    }
  }

  // ---- A value replaced by what a function makes of it ----

  function Rewrite(node: Json, path: seq<string>, key: string, f: Json -> Option<Json>): Option<Json> {
    var was := Get(node, path + [key]);
    if was.None? then None
    else
      var value := f(was.value);
      if value.None? then None else AssignIn(node, path, key, value.value)
  }

  // The function leaves what it made.
  ghost predicate Settles(f: Json -> Option<Json>) { forall x :: f(x).Some? ==> f(f(x).value) == f(x) }

  // The place holds a value the function leaves alone.
  ghost predicate Settled(node: Json, path: seq<string>, key: string, f: Json -> Option<Json>) {
    var value := Get(node, path + [key]);
    value.Some? && f(value.value) == value
  }

  lemma {:induction false} RewriteSettles(node: Json, path: seq<string>, key: string, f: Json -> Option<Json>)
    requires Settles(f) && Rewrite(node, path, key, f).Some?
    ensures Settled(Rewrite(node, path, key, f).value, path, key, f)
  {
    var was := Get(node, path + [key]).value;
    GetAssigned(node, path, key, f(was).value);
  }

  lemma {:induction false} SettledStays(node: Json, path: seq<string>, key: string, f: Json -> Option<Json>)
    requires Settled(node, path, key, f)
    ensures Rewrite(node, path, key, f) == Some(node)
  {
    AssignSame(node, path, key, Get(node, path + [key]).value);
  }

  lemma {:induction false} RewriteTwice(node: Json, path: seq<string>, key: string, f: Json -> Option<Json>)
    requires Settles(f) && Rewrite(node, path, key, f).Some?
    ensures Rewrite(Rewrite(node, path, key, f).value, path, key, f) == Rewrite(node, path, key, f)
  {
    RewriteSettles(node, path, key, f);
    SettledStays(Rewrite(node, path, key, f).value, path, key, f);
  }

  // ---- The rewrites of the five schemas ----

  // What the generator brings to the schemas it reads.
  datatype Sources = Sources(pairs: Pairs, metrics: Json, metricNames: Json, lineage: Json -> Json,
    checks: string -> Option<Json>)

  // The rules of a request: a recorded seed must be an integer.
  function RewriteRules(rules: Json): Option<Json> {
    if !rules.Array? then None
    else
      var r := RequireRecordedSeed(rules.items, RECORDED);
      if r.None? then None else Some(Array(r.value))
  }

  // The outputs of a receipt: one variant for each role and medium.
  function RewriteOutputs(src: Sources, outputs: Json): Option<Json> {
    var items := Get(outputs, ["oneOf"]);
    if items.None? || !items.value.Array? then None
    else
      var r := ReceiptOutputs(items.value.items, src.pairs, src.metrics, src.metricNames);
      if r.None? then None else Some(Object([Member("oneOf", Array(r.value))]))
  }

  function RewriteRoles(src: Sources, base: Json): Option<Json> { RoleMediaVariants(base, src.pairs) }

  lemma {:induction false} RulesSettle()
    ensures Settles(RewriteRules)
  {
    hide RequireRecordedSeed;
    forall x | RewriteRules(x).Some? ensures RewriteRules(RewriteRules(x).value) == RewriteRules(x) {
      RecordedSeedStable(x.items);
    }
  }

  lemma {:induction false} OneOfHolds(items: Json)
    ensures Get(Object([Member("oneOf", items)]), ["oneOf"]) == Some(items)
  {
    GetStep(Object([Member("oneOf", items)]), ["oneOf"]);
    assert ["oneOf"][1..] == [];
  }

  lemma {:induction false} OutputsSettle(src: Sources)
    ensures Settles(x => RewriteOutputs(src, x))
  {
    hide ReceiptOutputs, Get;
    forall x | RewriteOutputs(src, x).Some?
      ensures RewriteOutputs(src, RewriteOutputs(src, x).value) == RewriteOutputs(src, x)
    {
      var items := Get(x, ["oneOf"]).value.items;
      ReceiptOutputsStable(items, src.pairs, src.metrics, src.metricNames);
      OneOfHolds(Array(ReceiptOutputs(items, src.pairs, src.metrics, src.metricNames).value));
    }
  }

  lemma {:induction false} RolesSettle(src: Sources)
    requires src.pairs != []
    ensures Settles(x => RewriteRoles(src, x))
  {
    hide RoleMediaVariants;
    forall x | RewriteRoles(src, x).Some?
      ensures RewriteRoles(src, RewriteRoles(src, x).value) == RewriteRoles(src, x)
    {
      RoleMediaStable(x, src.pairs);
    }
  }

  // ---- The lineage of a selection ----

  const SELECTED: seq<string> := ["properties", "selected_outputs"]
  const LINEAGE_ROOTS := "x-world-forge-receipt-lineage-roots"

  // A list of required keys, when it is one.
  function Keys(required: Json): Option<seq<string>> {
    if required.Array? then TextsOf(required.items) else None
  }

  function TextsOf(items: seq<Json>): Option<seq<string>> {
    if items == [] then Some([])
    else
      var rest := TextsOf(items[1..]);
      if !items[0].Text? || rest.None? then None else Some([items[0].s] + rest.value)
  }

  function Texts(keys: seq<string>): seq<Json> { seq(|keys|, i requires 0 <= i < |keys| => Text(keys[i])) }

  lemma {:induction false} TextsRead(keys: seq<string>)
    ensures TextsOf(Texts(keys)) == Some(keys)
  {
    if keys != [] {
      TextsRead(keys[1..]);
      assert Texts(keys)[1..] == Texts(keys[1..]);
      assert keys == [keys[0]] + keys[1..];
    }
  }

  // The lineage is required next to the receipt.
  function RequireLineage(required: Json): Option<Json> {
    var keys := Keys(required);
    if keys.None? then None
    else
      var r := RequireAfter(keys.value, "receipt_lineage", "receipt");
      if r.None? then None else Some(Array(Texts(r.value)))
  }

  lemma {:induction false} RequireSettles()
    ensures Settles(RequireLineage)
  {
    hide InsertAfter;
    forall x | RequireLineage(x).Some? ensures RequireLineage(RequireLineage(x).value) == RequireLineage(x) {
      var r := RequireAfter(Keys(x).value, "receipt_lineage", "receipt").value;
      TextsRead(r);
      assert "receipt_lineage" in r;
    }
  }

  // The lineage schema is made from the receipt's own schema, whatever that is.
  function AddLineage(src: Sources, selection: Json): Option<Json> {
    var receipt := Get(selection, ["properties"] + ["receipt"]);
    if receipt.None? then None
    else
      var one := AssignIn(selection, ["properties"], "receipt_lineage", src.lineage(receipt.value));
      if one.None? then None
      else
        var two := Rewrite(one.value, [], "required", RequireLineage);
        if two.None? then None else AssignIn(two.value, [], LINEAGE_ROOTS, Bool(true))
  }

  // The lineage, its requirement and its mark are in place.
  ghost predicate HasLineage(src: Sources, selection: Json) {
    && Get(selection, ["properties"] + ["receipt"]).Some?
    && Get(selection, ["properties"] + ["receipt_lineage"])
      == Some(src.lineage(Get(selection, ["properties"] + ["receipt"]).value))
    && Settled(selection, [], "required", RequireLineage)
    && Get(selection, [] + [LINEAGE_ROOTS]) == Some(Bool(true))
  }

  lemma {:induction false} HadLineage(src: Sources, selection: Json)
    requires HasLineage(src, selection)
    ensures AddLineage(src, selection) == Some(selection)
  {
    var receipt := Get(selection, ["properties"] + ["receipt"]).value;
    AssignSame(selection, ["properties"], "receipt_lineage", src.lineage(receipt));
    SettledStays(selection, [], "required", RequireLineage);
    AssignSame(selection, [], LINEAGE_ROOTS, Bool(true));
  }

  lemma {:induction false} Differ(p: seq<string>, q: seq<string>, k: nat)
    requires k < |p| && k < |q| && p[k] != q[k]
    ensures Apart(p, q)
  {
  }

  // Adding the lineage puts it in place and leaves the properties' other branches alone.
  lemma {:induction false} AddedLineage(src: Sources, selection: Json)
    requires AddLineage(src, selection).Some?
    ensures var out := AddLineage(src, selection).value;
      && HasLineage(src, out)
      && Get(out, SELECTED + ["items"]) == Get(selection, SELECTED + ["items"])
  {
    hide Get, AssignIn, Apart;
    var path: seq<string> := ["properties"] + ["receipt"];
    var items := SELECTED + ["items"];
    var value := src.lineage(Get(selection, path).value);
    var lineage := ["properties"] + ["receipt_lineage"];
    var one := AssignIn(selection, ["properties"], "receipt_lineage", value).value;
    GetAssigned(selection, ["properties"], "receipt_lineage", value);
    Differ(lineage, path, 1);
    Differ(lineage, items, 1);
    GetElsewhere(selection, ["properties"], "receipt_lineage", value, path);
    GetElsewhere(selection, ["properties"], "receipt_lineage", value, items);
    var two := Rewrite(one, [], "required", RequireLineage).value;
    RequireSettles();
    RewriteSettles(one, [], "required", RequireLineage);
    var required := [] + ["required"];
    Untouched(one, "required", RequireLineage(Get(one, required).value).value, path);
    Untouched(one, "required", RequireLineage(Get(one, required).value).value, lineage);
    Untouched(one, "required", RequireLineage(Get(one, required).value).value, items);
    GetAssigned(two, [], LINEAGE_ROOTS, Bool(true));
    Untouched(two, LINEAGE_ROOTS, Bool(true), path);
    Untouched(two, LINEAGE_ROOTS, Bool(true), lineage);
    Untouched(two, LINEAGE_ROOTS, Bool(true), items);
    Untouched(two, LINEAGE_ROOTS, Bool(true), required);
  }

  lemma {:induction false} Untouched(node: Json, key: string, value: Json, other: seq<string>)
    requires AssignIn(node, [], key, value).Some? && other != [] && other[0] != key
    ensures Get(AssignIn(node, [], key, value).value, other) == Get(node, other)
  {
    Differ([] + [key], other, 0);
    GetElsewhere(node, [], key, value, other);
  }

  lemma {:induction false} LineageStable(src: Sources, selection: Json)
    requires AddLineage(src, selection).Some?
    ensures AddLineage(src, AddLineage(src, selection).value) == AddLineage(src, selection)
  {
    AddedLineage(src, selection);
    HadLineage(src, AddLineage(src, selection).value);
  }

  // A selection's outputs are rewritten and its lineage added.
  function RewriteSelection(src: Sources, selection: Json): Option<Json> {
    var r := Rewrite(selection, SELECTED, "items", x => RewriteRoles(src, x));
    if r.None? then None else AddLineage(src, r.value)
  }

  // The two rewrites of a selection leave each other's places alone, so together they are stable.
  lemma {:induction false} SelectionStable(src: Sources, selection: Json)
    requires src.pairs != [] && RewriteSelection(src, selection).Some?
    ensures RewriteSelection(src, RewriteSelection(src, selection).value) == RewriteSelection(src, selection)
  {
    hide AddLineage, HasLineage, Get, Rewrite;
    var f := x => RewriteRoles(src, x);
    var r := Rewrite(selection, SELECTED, "items", f).value;
    var out := AddLineage(src, r).value;
    RolesSettle(src);
    RewriteSettles(selection, SELECTED, "items", f);
    AddedLineage(src, r);
    SettledStays(out, SELECTED, "items", f);
    HadLineage(src, out);
  }

  // ---- The schemas read back ----

  datatype Schemas = Schemas(request: Json, receipt: Json, selection: Json, provenance: Json, license: Json)

  const OUTPUTS: seq<string> := ["properties", "outputs"]

  function Rewritten(src: Sources, s: Schemas): Option<Schemas> {
    var request := Rewrite(s.request, [], "allOf", RewriteRules);
    var receipt := Rewrite(s.receipt, OUTPUTS, "items", x => RewriteOutputs(src, x));
    var selection := RewriteSelection(src, s.selection);
    var provenance := Rewrite(s.provenance, ["properties", "candidates"], "items", x => RewriteRoles(src, x));
    var license := Rewrite(s.license, ["properties"], "candidate", x => RewriteRoles(src, x));
    if request.None? || receipt.None? || selection.None? || provenance.None? || license.None? then None
    else Some(Schemas(request.value, receipt.value, selection.value, provenance.value, license.value))
  }

  // Rewriting the rewritten schemas changes nothing.
  lemma {:induction false} RewrittenTwice(src: Sources, s: Schemas)
    requires src.pairs != [] && Rewritten(src, s).Some?
    ensures Rewritten(src, Rewritten(src, s).value) == Rewritten(src, s)
  {
    hide Rewrite, RewriteSelection;
    RulesSettle();
    OutputsSettle(src);
    RolesSettle(src);
    RewriteTwice(s.request, [], "allOf", RewriteRules);
    RewriteTwice(s.receipt, OUTPUTS, "items", x => RewriteOutputs(src, x));
    SelectionStable(src, s.selection);
    RewriteTwice(s.provenance, ["properties", "candidates"], "items", x => RewriteRoles(src, x));
    RewriteTwice(s.license, ["properties"], "candidate", x => RewriteRoles(src, x));
  }

  // ---- The schemas made afresh ----

  // What the fresh schemas take from the schemas read: two definitions of the request and the three lists of output
  // variants.  The rest of them is constant.
  datatype Fresh = Fresh(id: Json, path: Json, variants: Variants)

  datatype Output = Output(schemas: Schemas, made: Fresh)

  // The items of a receipt's outputs.
  function OutputItems(receipt: Json): Option<seq<Json>> {
    var outputs := Get(receipt, OUTPUTS + ["items"]);
    if outputs.None? then None
    else
      var items := Get(outputs.value, ["oneOf"]);
      if items.Some? && items.value.Array? then Some(items.value.items) else None
  }

  function MakeFresh(src: Sources, s: Schemas): Option<Fresh> {
    var id, path, items := Get(s.request, ["$defs", "id"]), Get(s.request, ["$defs", "path"]), OutputItems(s.receipt);
    if id.None? || path.None? || items.None? then None
    else
      var variants := Derived(src.checks, items.value);
      if variants.None? then None else Some(Fresh(id.value, path.value, variants.value))
  }

  // The fresh schemas are made from the files as they still are on disk.
  function Build(src: Sources, s: Schemas): Option<Output> {
    var schemas, made := Rewritten(src, s), MakeFresh(src, s);
    if schemas.None? || made.None? then None else Some(Output(schemas.value, made.value))
  }

  ghost predicate SchemasAlike(a: Schemas, b: Schemas) {
    && Alike(a.request, b.request) && Alike(a.receipt, b.receipt) && Alike(a.selection, b.selection)
    && Alike(a.provenance, b.provenance) && Alike(a.license, b.license)
  }

  // The same files are written.
  ghost predicate SameFiles(a: Output, b: Output) {
    && SchemasAlike(a.schemas, b.schemas) && Alike(a.made.id, b.made.id) && Alike(a.made.path, b.made.path)
    && VariantsAlike(a.made.variants, b.made.variants)
  }

  // ---- A second build ----

  // The variants a receipt's outputs are rewritten to.
  function NewItems(src: Sources, receipt: Json): Option<seq<Json>> {
    var items := OutputItems(receipt);
    if items.None? then None else ReceiptOutputs(items.value, src.pairs, src.metrics, src.metricNames)
  }

  // The receipt read has one item for each role and medium, in their order, and each agrees with the variant that
  // takes its place.
  ghost predicate ItemsSettled(src: Sources, receipt: Json) {
    && OutputItems(receipt).Some? && NewItems(src, receipt).Some?
    && var items, variants := OutputItems(receipt).value, NewItems(src, receipt).value;
      |items| == |src.pairs| && forall i :: 0 <= i < |items| ==> ItemsAgree(items[i], variants[i])
  }

  lemma {:induction false} ReceiptHolds(src: Sources, receipt: Json)
    requires Rewrite(receipt, OUTPUTS, "items", x => RewriteOutputs(src, x)).Some?
    ensures OutputItems(receipt).Some? && NewItems(src, receipt).Some?
    ensures OutputItems(Rewrite(receipt, OUTPUTS, "items", x => RewriteOutputs(src, x)).value) == NewItems(src, receipt)
  {
    hide Get, AssignIn, ReceiptOutputs;
    var was := Get(receipt, OUTPUTS + ["items"]).value;
    var now := RewriteOutputs(src, was).value;
    GetAssigned(receipt, OUTPUTS, "items", now);
    OneOfHolds(Array(NewItems(src, receipt).value));
  }

  lemma {:induction false} RequestKeeps(request: Json, name: string)
    requires Rewrite(request, [], "allOf", RewriteRules).Some?
    ensures Get(Rewrite(request, [], "allOf", RewriteRules).value, ["$defs", name]) == Get(request, ["$defs", name])
  {
    hide Get, AssignIn, RewriteRules;
    Untouched(request, "allOf", RewriteRules(Get(request, [] + ["allOf"]).value).value, ["$defs", name]);
  }

  // The second build finds the first one's receipt, so its variants come from the rewritten items.
  lemma {:induction false} SecondFresh(src: Sources, s: Schemas)
    requires src.pairs != [] && Build(src, s).Some?
    ensures var first, second := MakeFresh(src, s).value, MakeFresh(src, Rewritten(src, s).value);
      && NewItems(src, s.receipt).Some? && Derived(src.checks, NewItems(src, s.receipt).value).Some?
      && second == Some(first.(variants := Derived(src.checks, NewItems(src, s.receipt).value).value))
  {
    hide Rewrite, RewriteSelection, Get, Derived, ReceiptOutputs;
    ReceiptHolds(src, s.receipt);
    RequestKeeps(s.request, "id");
    RequestKeeps(s.request, "path");
    VariantsDerive(src.checks, OutputItems(s.receipt).value, src.pairs, src.metrics, src.metricNames);
  }

  // A second build succeeds, writes the schemas read back as they are, and leaves every file alone exactly when the
  // items of the receipt first read were settled.  A third build always gives what the second gave.
  lemma {:induction false} SecondBuildExactly(src: Sources, s: Schemas)
    requires src.pairs != [] && Build(src, s).Some?
    ensures var first := Build(src, s).value;
      var second := Build(src, first.schemas);
      && second.Some? && second.value.schemas == first.schemas
      && (SameFiles(first, second.value) <==> ItemsSettled(src, s.receipt))
      && Build(src, second.value.schemas) == second
  {
    hide Rewritten, MakeFresh, Alike, Derived, NewItems, OutputItems, ItemsAgree, VariantsAlike;
    RewrittenTwice(src, s);
    SecondFresh(src, s);
    var first := Build(src, s).value;
    var items, variants := ReadItems(src, s);
    DerivedAgree(src.checks, items, variants);
    AlikeItself(first.schemas.request);
    AlikeItself(first.schemas.receipt);
    AlikeItself(first.schemas.selection);
    AlikeItself(first.schemas.provenance);
    AlikeItself(first.schemas.license);
    AlikeItself(first.made.id);
    AlikeItself(first.made.path);
  }

  lemma {:induction false} ReadItems(src: Sources, s: Schemas) returns (items: seq<Json>, variants: seq<Json>)
    requires Build(src, s).Some? && NewItems(src, s.receipt).Some?
    ensures OutputItems(s.receipt) == Some(items) && NewItems(src, s.receipt) == Some(variants)
    ensures |variants| == |src.pairs| && Derived(src.checks, items) == Some(Build(src, s).value.made.variants)
  {
    items, variants := OutputItems(s.receipt).value, NewItems(src, s.receipt).value;
  }

  // So a receipt with another number of items than there are roles and media is stale after its first build.
  lemma {:induction false} OtherNumbersAreStale(src: Sources, s: Schemas)
    requires src.pairs != [] && Build(src, s).Some? && |OutputItems(s.receipt).value| != |src.pairs|
    ensures var first := Build(src, s).value;
      Build(src, first.schemas).Some? && !SameFiles(first, Build(src, first.schemas).value)
  {
    SecondBuildExactly(src, s);
  }

  // A written receipt is settled.
  lemma {:induction false} WrittenIsSettled(src: Sources, s: Schemas)
    requires src.pairs != [] && Build(src, s).Some?
    ensures ItemsSettled(src, Build(src, s).value.schemas.receipt)
  {
    hide SameFiles, ItemsSettled, Build;
    SecondBuildExactly(src, s);
    var first := Build(src, s).value;
    SecondBuildExactly(src, first.schemas);
    SameAsItself(Build(src, first.schemas).value);
  }

  lemma {:induction false} SameAsItself(a: Output)
    ensures SameFiles(a, a)
  {
    AlikeItself(a.schemas.request);
    AlikeItself(a.schemas.receipt);
    AlikeItself(a.schemas.selection);
    AlikeItself(a.schemas.provenance);
    AlikeItself(a.schemas.license);
    AlikeItself(a.made.id);
    AlikeItself(a.made.path);
    forall x: Json ensures Alike(x, x) { AlikeItself(x); }
  }
}
