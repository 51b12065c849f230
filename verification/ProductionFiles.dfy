/**
 What a build of the production schemas does to each file it reads back: the place it rewrites, the value it puts
 there, and that every place on another branch keeps its value; and what it means for two files to be alike.
 */
module ProductionFiles {
  import opened Wrappers
  import opened JsonTree
  import opened ProductionRewrites
  import opened ProductionOutputs
  import opened ProductionBuild

  // ---- One rewrite ----

  // Every place on another branch is as it was.
  ghost predicate OnlyAt(was: Json, now: Json, place: seq<string>) {
    forall other :: Apart(place, other) ==> Get(now, other) == Get(was, other)
  }

  // At the place stands what the function makes of what stood there.
  ghost predicate MadeOf(was: Json, now: Json, place: seq<string>, f: Json -> Option<Json>) {
    && Get(was, place).Some? && f(Get(was, place).value).Some?
    && Get(now, place) == f(Get(was, place).value) && OnlyAt(was, now, place)
  }

  lemma {:induction false} RewriteIs(node: Json, path: seq<string>, key: string, f: Json -> Option<Json>)
    requires Rewrite(node, path, key, f).Some?
    ensures MadeOf(node, Rewrite(node, path, key, f).value, path + [key], f)
  {
    hide Get, AssignIn, Apart;
    var value := f(Get(node, path + [key]).value).value;
    GetAssigned(node, path, key, value);
    forall other | Apart(path + [key], other)
      ensures Get(AssignIn(node, path, key, value).value, other) == Get(node, other)
    {
      GetElsewhere(node, path, key, value, other);
    }
  }

  // ---- The five files ----

  // The rules of a request, with the recorded seed's.
  function NewRules(rules: Json): Option<Json> {
    if !rules.Array? || RequireRecordedSeed(rules.items, RECORDED).None? then None
    else Some(Array(RequireRecordedSeed(rules.items, RECORDED).value))
  }

  // A receipt's output variants, from those it had.
  function NewOutputs(src: Sources, outputs: Json): Option<Json> {
    var items := if outputs.Object? then Lookup(outputs.members, "oneOf") else None;
    if items.None? || !items.value.Array? then None
    else
      var r := ReceiptOutputs(items.value.items, src.pairs, src.metrics, src.metricNames);
      if r.None? then None else Some(Object([Member("oneOf", Array(r.value))]))
  }

  ghost predicate RolesAt(src: Sources, was: Json, now: Json, place: seq<string>) {
    && Get(was, place).Some? && Get(now, place) == RoleMediaVariants(Get(was, place).value, src.pairs)
    && Get(now, place).Some?
  }

  // A selection has its variants, its lineage, the lineage required and the mark.
  ghost predicate SelectionIs(src: Sources, was: Json, now: Json) {
    && RolesAt(src, was, now, ["properties", "selected_outputs", "items"])
    && Get(was, ["properties", "receipt"]).Some?
    && Get(now, ["properties", "receipt_lineage"]) == Some(src.lineage(Get(was, ["properties", "receipt"]).value))
    && Get(was, ["required"]).Some? && Get(now, ["required"]) == RequireLineage(Get(was, ["required"]).value)
    && Get(now, ["x-world-forge-receipt-lineage-roots"]) == Some(Bool(true))
    && forall other :: OffSelection(other) ==> Get(now, other) == Get(was, other)
  }

  // On a branch of the selection that is not written to.
  predicate OffSelection(other: seq<string>) {
    && Apart(["properties", "selected_outputs", "items"], other) && Apart(["properties", "receipt_lineage"], other)
    && Apart(["required"], other) && Apart(["x-world-forge-receipt-lineage-roots"], other)
  }

  lemma {:induction false} LineageIs(src: Sources, selection: Json)
    requires AddLineage(src, selection).Some?
    ensures var out := AddLineage(src, selection).value;
      && Get(selection, ["properties", "receipt"]).Some?
      && Get(out, ["properties", "receipt_lineage"])
        == Some(src.lineage(Get(selection, ["properties", "receipt"]).value))
      && Get(selection, ["required"]).Some?
      && Get(out, ["required"]) == RequireLineage(Get(selection, ["required"]).value)
      && Get(out, ["x-world-forge-receipt-lineage-roots"]) == Some(Bool(true))
      && forall other ::
        Apart(["properties", "receipt_lineage"], other) && Apart(["required"], other)
        && Apart(["x-world-forge-receipt-lineage-roots"], other)
        ==> Get(out, other) == Get(selection, other)
  {
    hide Get, AssignIn, Apart;
    var lineage, required, mark := ["properties", "receipt_lineage"], ["required"], [LINEAGE_ROOTS];
    assert ["properties"] + ["receipt_lineage"] == lineage && ["properties"] + ["receipt"] == ["properties", "receipt"];
    assert [] + ["required"] == required && [] + [LINEAGE_ROOTS] == mark;
    var value := src.lineage(Get(selection, ["properties", "receipt"]).value);
    var one := AssignIn(selection, ["properties"], "receipt_lineage", value).value;
    var two := Rewrite(one, [], "required", RequireLineage).value;
    GetAssigned(selection, ["properties"], "receipt_lineage", value);
    RewriteIs(one, [], "required", RequireLineage);
    GetAssigned(two, [], LINEAGE_ROOTS, Bool(true));
    Differ(lineage, required, 0);
    Differ(required, lineage, 0);
    Differ(mark, lineage, 0);
    Differ(mark, required, 0);
    GetElsewhere(selection, ["properties"], "receipt_lineage", value, required);
    GetElsewhere(two, [], LINEAGE_ROOTS, Bool(true), lineage);
    GetElsewhere(two, [], LINEAGE_ROOTS, Bool(true), required);
    forall other | Apart(lineage, other) && Apart(required, other) && Apart(mark, other)
      ensures Get(AddLineage(src, selection).value, other) == Get(selection, other)
    {
      GetElsewhere(selection, ["properties"], "receipt_lineage", value, other);
      GetElsewhere(two, [], LINEAGE_ROOTS, Bool(true), other);
    }
  }

  lemma {:induction false} RewrittenSelectionIs(src: Sources, selection: Json)
    requires RewriteSelection(src, selection).Some?
    ensures SelectionIs(src, selection, RewriteSelection(src, selection).value)
  {
    hide Get, AssignIn, Apart, Rewrite, AddLineage, RoleMediaVariants, RequireLineage;
    var f := x => RewriteRoles(src, x);
    var place := ["properties", "selected_outputs", "items"];
    assert SELECTED + ["items"] == place;
    var one := Rewrite(selection, SELECTED, "items", f).value;
    assert MadeOf(selection, one, place, f) by { RewriteIs(selection, SELECTED, "items", f); }
    LineageIs(src, one);
    Differ(place, ["properties", "receipt"], 1);
    Differ(place, ["required"], 0);
    Differ(["properties", "receipt_lineage"], place, 1);
    Differ(["required"], place, 0);
    Differ(["x-world-forge-receipt-lineage-roots"], place, 0);
  }

  // A build rewrites exactly these places of the five files it reads back.
  lemma {:induction false} RewrittenFiles(src: Sources, s: Schemas)
    requires Rewritten(src, s).Some?
    ensures var out := Rewritten(src, s).value;
      && MadeOf(s.request, out.request, ["allOf"], NewRules)
      && MadeOf(s.receipt, out.receipt, ["properties", "outputs", "items"], x => NewOutputs(src, x))
      && SelectionIs(src, s.selection, out.selection)
      && RolesAt(src, s.provenance, out.provenance, ["properties", "candidates", "items"])
      && OnlyAt(s.provenance, out.provenance, ["properties", "candidates", "items"])
      && RolesAt(src, s.license, out.license, ["properties", "candidate"])
      && OnlyAt(s.license, out.license, ["properties", "candidate"])
  {
    hide Get, Rewrite, RewriteSelection, RoleMediaVariants, ReceiptOutputs, RequireRecordedSeed, OnlyAt, SelectionIs;
    assert [] + ["allOf"] == ["allOf"] && OUTPUTS + ["items"] == ["properties", "outputs", "items"];
    assert ["properties", "candidates"] + ["items"] == ["properties", "candidates", "items"];
    assert ["properties"] + ["candidate"] == ["properties", "candidate"];
    RewriteIs(s.request, [], "allOf", RewriteRules);
    RewriteIs(s.receipt, OUTPUTS, "items", x => RewriteOutputs(src, x));
    OutputsByLookup(src, Get(s.receipt, ["properties", "outputs", "items"]).value);
    RewrittenSelectionIs(src, s.selection);
    RewriteIs(s.provenance, ["properties", "candidates"], "items", x => RewriteRoles(src, x));
    RewriteIs(s.license, ["properties"], "candidate", x => RewriteRoles(src, x));
  }

  lemma {:induction false} OutputsByLookup(src: Sources, outputs: Json)
    ensures RewriteOutputs(src, outputs) == NewOutputs(src, outputs)
  {
    assert ["oneOf"][1..] == [];
    if outputs.Object? { GetStep(outputs, ["oneOf"]); }
  }

  // ---- Alike files ----

  datatype Step = Key(key: string) | Index(index: nat)

  // The value reached by keys and indices.
  function Reach(value: Json, path: seq<Step>): Option<Json>
    decreases |path|
  {
    if path == [] then Some(value)
    else
      match (value, path[0])
      case (Object(ms), Key(key)) =>
        (var child := Lookup(ms, key); if child.None? then None else Reach(child.value, path[1..]))
      case (Array(items), Index(i)) => if i < |items| then Reach(items[i], path[1..]) else None
      case _ => None
  }

  // Two objects, two arrays of one length, or the same scalar.
  predicate SameSort(a: Json, b: Json) {
    match (a, b)
    case (Object(_), Object(_)) => true
    case (Array(x), Array(y)) => |x| == |y|
    case _ => a == b
  }

  ghost predicate SameAt(a: Json, b: Json, path: seq<Step>) {
    && (Reach(a, path).Some? <==> Reach(b, path).Some?)
    && (Reach(a, path).Some? && Reach(b, path).Some? ==> SameSort(Reach(a, path).value, Reach(b, path).value))
  }

  ghost predicate SameEverywhere(a: Json, b: Json) { forall path :: SameAt(a, b, path) }

  lemma {:induction false} AlikeReaches(a: Json, b: Json, path: seq<Step>)
    requires Alike(a, b)
    ensures SameAt(a, b, path)
    decreases |path|
  {
    if path != [] {
      match (a, b)
      case (Object(x), Object(y)) =>
        AlikeByKey(x, y);
        if path[0].Key? {
          assert AlikeAt(x, y, path[0].key);
          if Lookup(x, path[0].key).Some? {
            AlikeReaches(Lookup(x, path[0].key).value, Lookup(y, path[0].key).value, path[1..]);
          }
        }
      case (Array(x), Array(y)) =>
        if path[0].Index? && path[0].index < |x| { AlikeReaches(x[path[0].index], y[path[0].index], path[1..]); }
      case _ =>
    }
  }

  lemma {:induction false} Deeper(value: Json, step: Step, path: seq<Step>)
    ensures Reach(value, [step] + path) == (
      var child := Reach(value, [step]); if child.None? then None else Reach(child.value, path))
  {
    assert ([step] + path)[1..] == path && [step][1..] == [];
  }

  lemma {:induction false} SameBelow(a: Json, b: Json, step: Step)
    requires SameEverywhere(a, b) && Reach(a, [step]).Some?
    ensures Reach(b, [step]).Some? && SameEverywhere(Reach(a, [step]).value, Reach(b, [step]).value)
  {
    hide Reach;
    assert SameAt(a, b, [step]);
    forall path ensures SameAt(Reach(a, [step]).value, Reach(b, [step]).value, path) {
      Deeper(a, step, path);
      Deeper(b, step, path);
      assert SameAt(a, b, [step] + path);
    }
  }

  lemma {:induction false} SameIsAlike(a: Json, b: Json)
    requires SameEverywhere(a, b)
    ensures Alike(a, b)
    decreases a
  {
    hide SameAt;
    assert SameSort(a, b) by { SameAtRoot(a, b); }
    match (a, b)
    case (Object(x), Object(y)) =>
      forall k ensures Lookup(x, k).Some? <==> Lookup(y, k).Some? { SameKeys(a, b, k); }
      forall i | 0 <= i < |x| && Counts(x, i)
        ensures Lookup(y, x[i].key).Some? && Alike(x[i].value, Lookup(y, x[i].key).value)
      {
        ReachKey(a, x[i].key);
        ReachKey(b, x[i].key);
        SameBelow(a, b, Key(x[i].key));
        SameIsAlike(x[i].value, Lookup(y, x[i].key).value);
      }
    case (Array(x), Array(y)) =>
      forall i | 0 <= i < |x| ensures Alike(x[i], y[i]) {
        ReachIndex(a, i);
        ReachIndex(b, i);
        SameBelow(a, b, Index(i));
        SameIsAlike(x[i], y[i]);
      }
    case _ =>
  }

  lemma {:induction false} SameAtRoot(a: Json, b: Json)
    requires SameEverywhere(a, b)
    ensures SameSort(a, b)
  {
    assert SameAt(a, b, []);
  }

  lemma {:induction false} SameKeys(a: Json, b: Json, k: string)
    requires SameEverywhere(a, b) && a.Object? && b.Object?
    ensures Lookup(a.members, k).Some? <==> Lookup(b.members, k).Some?
  {
    ReachKey(a, k);
    ReachKey(b, k);
    assert SameAt(a, b, [Key(k)]);
  }

  lemma {:induction false} ReachKey(value: Json, k: string)
    requires value.Object?
    ensures Reach(value, [Key(k)]) == Lookup(value.members, k)
  {
    assert [Key(k)][1..] == [];
  }

  lemma {:induction false} ReachIndex(value: Json, i: nat)
    requires value.Array? && i < |value.items|
    ensures Reach(value, [Index(i)]) == Some(value.items[i])
  {
    assert [Index(i)][1..] == [];
  }

  // Two files are alike exactly when the same keys and indices lead to the same scalars, to arrays of one length and to
  // objects.
  lemma {:induction false} AlikeIsSame(a: Json, b: Json)
    ensures Alike(a, b) <==> SameEverywhere(a, b)
  {
    if Alike(a, b) {
      forall path ensures SameAt(a, b, path) { AlikeReaches(a, b, path); }
    }
    if SameEverywhere(a, b) { SameIsAlike(a, b); }
  }

  function FilesOf(s: Schemas): seq<Json> { [s.request, s.receipt, s.selection, s.provenance, s.license] }

  // Alike schemas are the same in every one of the five files.
  lemma {:induction false} AllFilesAlike(a: Schemas, b: Schemas)
    ensures SchemasAlike(a, b) <==> forall i :: 0 <= i < 5 ==> SameEverywhere(FilesOf(a)[i], FilesOf(b)[i])
    ensures FilesOf(a) == FilesOf(b) ==> a == b
  {
    hide SameEverywhere, Alike;
    var x, y := FilesOf(a), FilesOf(b);
    forall i | 0 <= i < 5 ensures Alike(x[i], y[i]) <==> SameEverywhere(x[i], y[i]) { AlikeIsSame(x[i], y[i]); }
    assert x[0] == a.request && x[1] == a.receipt && x[2] == a.selection && x[3] == a.provenance && x[4] == a.license;
    assert y[0] == b.request && y[1] == b.receipt && y[2] == b.selection && y[3] == b.provenance && y[4] == b.license;
  }
}
