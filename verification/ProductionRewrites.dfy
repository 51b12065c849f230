/**
 The generators that read their own last output: each rewrites a schema, and rewriting a rewritten schema changes
 nothing.
 */
module ProductionRewrites {
  import opened Wrappers
  import opened JsonTree

  function Const(s: string): Json { Object([Member("const", Text(s))]) }

  // Assigning two keys again, after both were assigned.
  lemma {:induction false} PairTwice(ms: seq<Member>, p: string, a: Json, a': Json, q: string, b: Json, b': Json)
    requires p != q
    ensures Assign(Assign(Assign(Assign(ms, p, a), q, b), p, a'), q, b') == Assign(Assign(ms, p, a'), q, b')
  {
    var once := Assign(ms, p, a);
    AssignOther(once, q, b, p, a');
    AssignTwice(ms, p, a, a');
    AssignTwice(Assign(ms, p, a'), q, b, b');
  }

  // ---- Role and media variants ----

  type Pairs = seq<(string, string)>

  // The object's properties, when it has them.
  function Properties(node: Json): Option<seq<Member>> {
    if !node.Object? then None
    else
      var p := Lookup(node.members, "properties");
      if p.Some? && p.value.Object? then Some(p.value.members) else None
  }

  function WithProperties(node: Json, ps: seq<Member>): Json
    requires node.Object?
  {
    Object(Assign(node.members, "properties", Object(ps)))
  }

  lemma {:induction false} PropertiesOf(node: Json, ps: seq<Member>, qs: seq<Member>)
    requires node.Object?
    ensures Properties(WithProperties(node, ps)) == Some(ps)
    ensures WithProperties(WithProperties(node, ps), qs) == WithProperties(node, qs)
  {
    LookupAssigned(node.members, "properties", Object(ps), "properties");
    AssignTwice(node.members, "properties", Object(ps), Object(qs));
  }

  function RoleVariant(base: Json, pair: (string, string)): Json
    requires Properties(base).Some?
  {
    WithProperties(base, Assign(Assign(Properties(base).value, "role", Const(pair.0)), "media_type", Const(pair.1)))
  }

  // The first variant when there are some, otherwise the schema itself.
  function VariantBase(base: Json): Option<Json> {
    if !base.Object? then None
    else match Lookup(base.members, "oneOf")
      case None => Some(base)
      case Some(Array(items)) => if items == [] then None else Some(items[0])
      case Some(_) => None
  }

  function RoleMediaVariants(base: Json, pairs: Pairs): Option<Json> {
    var b := VariantBase(base);
    if b.None? || Properties(b.value).None? then None
    else Some(Object([Member("oneOf", Array(Variants(b.value, pairs)))]))
  }

  function Variants(base: Json, pairs: Pairs): (r: seq<Json>)
    requires Properties(base).Some?
    ensures |r| == |pairs| && forall i :: 0 <= i < |r| ==> r[i] == RoleVariant(base, pairs[i])
  {
    seq(|pairs|, i requires 0 <= i < |pairs| => RoleVariant(base, pairs[i]))
  }

  lemma {:induction false} VariantOfVariant(base: Json, first: (string, string), pair: (string, string))
    requires Properties(base).Some?
    ensures Properties(RoleVariant(base, first)).Some?
    ensures RoleVariant(RoleVariant(base, first), pair) == RoleVariant(base, pair)
  {
    var ps := Properties(base).value;
    var once := Assign(Assign(ps, "role", Const(first.0)), "media_type", Const(first.1));
    var twice := Assign(Assign(once, "role", Const(pair.0)), "media_type", Const(pair.1));
    PropertiesOf(base, once, twice);
    PairTwice(ps, "role", Const(first.0), Const(pair.0), "media_type", Const(first.1), Const(pair.1));
  }

  lemma {:induction false} RoleMediaStable(base: Json, pairs: Pairs)
    requires pairs != [] && RoleMediaVariants(base, pairs).Some?
    ensures RoleMediaVariants(RoleMediaVariants(base, pairs).value, pairs) == RoleMediaVariants(base, pairs)
  {
    var b := VariantBase(base).value;
    var out := RoleMediaVariants(base, pairs).value;
    assert Lookup(out.members, "oneOf") == Some(out.members[0].value);
    assert VariantBase(out) == Some(RoleVariant(b, pairs[0]));
    VariantOfVariant(b, pairs[0], pairs[0]);
    forall i | 0 <= i < |pairs| ensures RoleVariant(RoleVariant(b, pairs[0]), pairs[i]) == RoleVariant(b, pairs[i]) {
      VariantOfVariant(b, pairs[0], pairs[i]);
    }
    assert Variants(RoleVariant(b, pairs[0]), pairs) == Variants(b, pairs);
  }

  // ---- The recorded seed's condition ----

  // The value at a chain of keys.
  function Get(node: Json, path: seq<string>): Option<Json>
    decreases |path|
  {
    if path == [] then Some(node)
    else if !node.Object? then None
    else
      var child := Lookup(node.members, path[0]);
      if child.None? then None else Get(child.value, path[1..])
  }

  const CLASS_PATH: seq<string> := ["if", "properties", "production_class", "const"]
  const SEED_PATH: seq<string> := ["if", "properties", "reproducibility", "properties", "seed_policy", "const"]

  predicate IsRecorded(item: Json) {
    Get(item, CLASS_PATH) == Some(Text("procedural_offline")) && Get(item, SEED_PATH) == Some(Text("recorded"))
  }

  // The rule the generator inserts: a recorded seed must be an integer.
  const RECORDED: Json := Object([
    Member("if", Object([
      Member("properties", Object([
        Member("production_class", Const("procedural_offline")),
        Member("reproducibility", Object([
          Member("properties", Object([Member("seed_policy", Const("recorded"))])),
          Member("required", Array([Text("seed_policy")])),
          Member("type", Text("object"))]))])),
      Member("required", Array([Text("production_class"), Text("reproducibility")])),
      Member("type", Text("object"))])),
    Member("then", Object([
      Member("properties", Object([
        Member("toolchain_requirements", Object([
          Member("properties", Object([Member("seed", Object([Member("type", Text("integer"))]))])),
          Member("required", Array([Text("seed")])),
          Member("type", Text("object"))]))])),
      Member("type", Text("object"))]))])

  lemma {:induction false} TheRuleIsRecorded()
    ensures IsRecorded(RECORDED)
  {
    var rule := RECORDED.members[0].value;
    var ps := rule.members[0].value;
    var policy := ps.members[1].value;
    var inner := policy.members[0].value;
    assert Get(Const("recorded"), ["const"]) == Some(Text("recorded")) by { assert ["const"][1..] == []; }
    assert Get(Const("procedural_offline"), ["const"]) == Some(Text("procedural_offline")) by {
      assert ["const"][1..] == [];
    }
    assert Lookup(inner.members, "seed_policy") == Some(Const("recorded"));
    assert ["seed_policy", "const"][1..] == ["const"];
    assert Get(inner, ["seed_policy", "const"]) == Some(Text("recorded"));
    assert ["properties", "seed_policy", "const"][1..] == ["seed_policy", "const"];
    assert Get(policy, ["properties", "seed_policy", "const"]) == Some(Text("recorded"));
    assert Lookup(ps.members, "production_class") == Some(Const("procedural_offline"));
    assert ps.members[1..][0].key == "reproducibility" && Lookup(ps.members, "reproducibility") == Some(policy);
    assert SEED_PATH[1..][1..][1..] == ["properties", "seed_policy", "const"];
    assert CLASS_PATH[1..][1..][1..] == ["const"];
    assert Get(ps, SEED_PATH[1..][1..]) == Some(Text("recorded"));
    assert Get(ps, CLASS_PATH[1..][1..]) == Some(Text("procedural_offline"));
    assert Get(rule, SEED_PATH[1..]) == Some(Text("recorded"));
    assert Get(rule, CLASS_PATH[1..]) == Some(Text("procedural_offline"));
  }

  predicate IsFixed(item: Json) { Get(item, SEED_PATH) == Some(Text("fixed")) }

  function WithoutRecorded(items: seq<Json>): seq<Json> {
    if items == [] then []
    else if IsRecorded(items[0]) then WithoutRecorded(items[1..])
    else [items[0]] + WithoutRecorded(items[1..])
  }

  // After the first fixed-seed rule; None when there is none.
  function InsertAfterFixed(items: seq<Json>, condition: Json): Option<seq<Json>> {
    if items == [] then None
    else if IsFixed(items[0]) then Some([items[0], condition] + items[1..])
    else
      var rest := InsertAfterFixed(items[1..], condition);
      if rest.None? then None else Some([items[0]] + rest.value)
  }

  function RequireRecordedSeed(items: seq<Json>, condition: Json): Option<seq<Json>> {
    InsertAfterFixed(WithoutRecorded(items), condition)
  }

  lemma {:induction false} FilteredTwice(items: seq<Json>)
    ensures WithoutRecorded(WithoutRecorded(items)) == WithoutRecorded(items)
  {
    if items != [] {
      FilteredTwice(items[1..]);
      if !IsRecorded(items[0]) {
        assert ([items[0]] + WithoutRecorded(items[1..]))[1..] == WithoutRecorded(items[1..]);
      }
    }
  }

  // Taking the inserted condition out again gives back the filtered rules.
  lemma {:induction false} InsertedIsFiltered(items: seq<Json>, condition: Json)
    requires IsRecorded(condition) && WithoutRecorded(items) == items && InsertAfterFixed(items, condition).Some?
    ensures WithoutRecorded(InsertAfterFixed(items, condition).value) == items
  {
    var out := InsertAfterFixed(items, condition).value;
    AlreadyFiltered(items);
    if IsFixed(items[0]) {
      assert out[1..] == [condition] + items[1..] && out[1..][1..] == items[1..];
    } else {
      assert out[1..] == InsertAfterFixed(items[1..], condition).value;
      InsertedIsFiltered(items[1..], condition);
    }
  }

  lemma {:induction false} FilteredLength(items: seq<Json>)
    ensures |WithoutRecorded(items)| <= |items|
  {
    if items != [] { FilteredLength(items[1..]); }
  }

  lemma {:induction false} AlreadyFiltered(items: seq<Json>)
    requires items != [] && WithoutRecorded(items) == items
    ensures !IsRecorded(items[0]) && WithoutRecorded(items[1..]) == items[1..]
  {
    FilteredLength(items[1..]);
    if !IsRecorded(items[0]) {
      assert ([items[0]] + WithoutRecorded(items[1..]))[1..] == WithoutRecorded(items[1..]);
    }
  }

  lemma {:induction false} RecordedSeedStable(items: seq<Json>)
    requires RequireRecordedSeed(items, RECORDED).Some?
    ensures RequireRecordedSeed(RequireRecordedSeed(items, RECORDED).value, RECORDED)
      == RequireRecordedSeed(items, RECORDED)
  {
    hide IsRecorded, IsFixed, WithoutRecorded, InsertAfterFixed;
    TheRuleIsRecorded();
    FilteredTwice(items);
    InsertedIsFiltered(WithoutRecorded(items), RECORDED);
  }

  // ---- Receipt lineage ----

  // Next to the receipt in the list of required keys.
  function RequireAfter(required: seq<string>, key: string, anchor: string): Option<seq<string>> {
    if key in required then Some(required) else InsertAfter(required, key, anchor)
  }

  function InsertAfter(required: seq<string>, key: string, anchor: string): (r: Option<seq<string>>)
    ensures r.Some? ==> key in r.value
  {
    if required == [] then None
    else if required[0] == anchor then
      assert ([required[0], key] + required[1..])[1] == key;
      Some([required[0], key] + required[1..])
    else
      var rest := InsertAfter(required[1..], key, anchor);
      if rest.None? then None else Some([required[0]] + rest.value)
  }

  // ---- Receipt outputs ----

  // Assigning a key below a chain of keys.
  function AssignIn(node: Json, path: seq<string>, key: string, value: Json): Option<Json>
    decreases |path|
  {
    if !node.Object? then None
    else if path == [] then Some(Object(Assign(node.members, key, value)))
    else
      var child := Lookup(node.members, path[0]);
      if child.None? then None
      else
        var r := AssignIn(child.value, path[1..], key, value);
        if r.None? then None else Some(Object(Assign(node.members, path[0], r.value)))
  }

  lemma {:induction false} AssignInTwice(node: Json, path: seq<string>, key: string, a: Json, b: Json)
    requires AssignIn(node, path, key, a).Some?
    ensures AssignIn(AssignIn(node, path, key, a).value, path, key, b) == AssignIn(node, path, key, b)
    decreases |path|
  {
    if path == [] {
      AssignTwice(node.members, key, a, b);
    } else {
      var child := Lookup(node.members, path[0]).value;
      var once := AssignIn(child, path[1..], key, a).value;
      AssignInTwice(child, path[1..], key, a, b);
      LookupAssigned(node.members, path[0], once, path[0]);
      var twice := AssignIn(child, path[1..], key, b);
      if twice.Some? { AssignTwice(node.members, path[0], once, twice.value); }
    }
  }

  const STAGE_PATH: seq<string> := ["properties"]
  const METRICS_PATH: seq<string> := ["properties", "metrics"]

  function Stage(role: string): Json { Const(if role == "vertex_shader" then "vertex" else "fragment") }

  // What a role and medium ask of the metadata: a shader's stage, a model's metrics.
  function Metadata(media: string, role: string, metrics: Json, required: Json, metadata: Json): Option<Json> {
    if media == "text/x-glsl" then AssignIn(metadata, STAGE_PATH, "stage", Stage(role))
    else
      var r := AssignIn(metadata, METRICS_PATH, "properties", metrics);
      if r.None? then None else AssignIn(r.value, METRICS_PATH, "required", required)
  }

  predicate HasMetadataRule(media: string) { media == "text/x-glsl" || media == "model/gltf-binary" }

  // One output variant for a role, from the item that describes its medium.
  function OutputVariant(media: string, role: string, metrics: Json, required: Json,
        ps: seq<Member>): Option<seq<Member>>
  {
    var named := Assign(ps, "role", Const(role));
    if !HasMetadataRule(media) then Some(named)
    else
      var m := Lookup(named, "metadata");
      if m.None? then None
      else
        var r := Metadata(media, role, metrics, required, m.value);
        if r.None? then None else Some(Assign(named, "metadata", r.value))
  }

  // Both metrics keys again, after both were assigned.
  lemma {:induction false} MetricsTwice(node: Json, path: seq<string>, a: Json, b: Json)
    requires AssignIn(node, path, "properties", a).Some?
    requires AssignIn(AssignIn(node, path, "properties", a).value, path, "required", b).Some?
    ensures var out := AssignIn(AssignIn(node, path, "properties", a).value, path, "required", b).value;
      AssignIn(out, path, "properties", a) == Some(out) && AssignIn(out, path, "required", b) == Some(out)
    decreases |path|
  {
    if path == [] {
      PairTwice(node.members, "properties", a, a, "required", b, b);
      var once := Assign(node.members, "properties", a);
      AssignOther(once, "required", b, "properties", a);
      AssignTwice(node.members, "properties", a, a);
      AssignTwice(once, "required", b, b);
    } else {
      var child := Lookup(node.members, path[0]).value;
      var one := AssignIn(child, path[1..], "properties", a).value;
      LookupAssigned(node.members, path[0], one, path[0]);
      var two := AssignIn(one, path[1..], "required", b).value;
      AssignTwice(node.members, path[0], one, two);
      LookupAssigned(node.members, path[0], two, path[0]);
      AssignTwice(node.members, path[0], two, two);
      MetricsTwice(child, path[1..], a, b);
    }
  }

  lemma {:induction false} MetadataTwice(media: string, first: string, role: string, metrics: Json, required: Json,
        metadata: Json)
    requires Metadata(media, first, metrics, required, metadata).Some?
    ensures var once := Metadata(media, first, metrics, required, metadata).value;
      Metadata(media, role, metrics, required, once) == Metadata(media, role, metrics, required, metadata)
  {
    if media == "text/x-glsl" {
      AssignInTwice(metadata, STAGE_PATH, "stage", Stage(first), Stage(role));
    } else {
      MetricsTwice(metadata, METRICS_PATH, metrics, required);
    }
  }

  // A variant of a variant is the variant of the original: the role, the stage and the metrics are all there is.
  lemma {:induction false} OutputVariantStable(media: string, first: string, role: string, metrics: Json,
        required: Json, ps: seq<Member>)
    requires OutputVariant(media, first, metrics, required, ps).Some?
    ensures OutputVariant(media, role, metrics, required, OutputVariant(media, first, metrics, required, ps).value)
      == OutputVariant(media, role, metrics, required, ps)
  {
    hide Metadata, Assign, Lookup;
    AssignTwice(ps, "role", Const(first), Const(role));
    LookupAssigned(ps, "role", Const(first), "metadata");
    LookupAssigned(ps, "role", Const(role), "metadata");
    if HasMetadataRule(media) {
      var m := Lookup(ps, "metadata").value;
      var once := Metadata(media, first, metrics, required, m).value;
      var named := Assign(ps, "role", Const(first));
      var out := Assign(named, "metadata", once);
      MetadataTwice(media, first, role, metrics, required, m);
      LookupAssigned(named, "metadata", once, "metadata");
      LookupAssigned(out, "role", Const(role), "metadata");
      var again := Metadata(media, role, metrics, required, m);
      if again.Some? { PairTwice(ps, "role", Const(first), Const(role), "metadata", once, again.value); }
    }
  }

  // The medium an output item describes.
  function MediaOf(item: Json): Option<string> {
    var ps := Properties(item);
    if ps.None? then None
    else
      var m := Lookup(ps.value, "media_type");
      if m.None? || !m.value.Object? then None
      else
        var c := Lookup(m.value.members, "const");
        if c.Some? && c.value.Text? then Some(c.value.s) else None
  }

  // The last item of a medium.
  function ByMedia(items: seq<Json>, media: string): Option<Json> {
    if items == [] then None
    else
      var n := |items| - 1;
      if MediaOf(items[n]) == Some(media) then Some(items[n]) else ByMedia(items[..n], media)
  }

  // The item with its properties made those of the output variant.
  function ItemVariant(media: string, role: string, metrics: Json, required: Json, item: Json): Option<Json> {
    var ps := Properties(item);
    if ps.None? then None
    else
      var r := OutputVariant(media, role, metrics, required, ps.value);
      if r.None? then None else Some(WithProperties(item, r.value))
  }

  function VariantFor(items: seq<Json>, pair: (string, string), metrics: Json, required: Json): Option<Json> {
    var item := ByMedia(items, pair.1);
    if item.None? then None else ItemVariant(pair.1, pair.0, metrics, required, item.value)
  }

  predicate AllFound(items: seq<Json>, pairs: Pairs, metrics: Json, required: Json) {
    && (forall i :: 0 <= i < |items| ==> MediaOf(items[i]).Some?)
    && forall i :: 0 <= i < |pairs| ==> VariantFor(items, pairs[i], metrics, required).Some?
  }

  // One variant for each role and medium, or None when an item or a medium is missing.
  function ReceiptOutputs(items: seq<Json>, pairs: Pairs, metrics: Json, required: Json): Option<seq<Json>> {
    if !AllFound(items, pairs, metrics, required) then None
    else Some(EachVariant(items, pairs, metrics, required))
  }

  function EachVariant(items: seq<Json>, pairs: Pairs, metrics: Json, required: Json): (r: seq<Json>)
    requires AllFound(items, pairs, metrics, required)
    ensures |r| == |pairs|
    ensures forall i :: 0 <= i < |r| ==> Some(r[i]) == VariantFor(items, pairs[i], metrics, required)
  {
    seq(|pairs|, i requires 0 <= i < |pairs| => VariantFor(items, pairs[i], metrics, required).value)
  }

  lemma {:induction false} ByMediaIs(items: seq<Json>, media: string)
    ensures ByMedia(items, media).Some? <==> exists i :: 0 <= i < |items| && MediaOf(items[i]) == Some(media)
    ensures ByMedia(items, media).Some? ==> ByMedia(items, media).value in items
    ensures ByMedia(items, media).Some? ==> MediaOf(ByMedia(items, media).value) == Some(media)
  {
    if items != [] { ByMediaIs(items[..|items| - 1], media); }
  }

  // A variant of an item describes the item's medium.
  lemma {:induction false} VariantMedia(media: string, role: string, metrics: Json, required: Json, item: Json)
    requires ItemVariant(media, role, metrics, required, item).Some?
    ensures MediaOf(ItemVariant(media, role, metrics, required, item).value) == MediaOf(item)
  {
    hide Metadata, Assign;
    var ps := Properties(item).value;
    var named := Assign(ps, "role", Const(role));
    PropertiesOf(item, OutputVariant(media, role, metrics, required, ps).value, ps);
    LookupAssigned(ps, "role", Const(role), "media_type");
    if HasMetadataRule(media) {
      var r := Metadata(media, role, metrics, required, Lookup(named, "metadata").value).value;
      LookupAssigned(named, "metadata", r, "media_type");
    }
  }

  lemma {:induction false} ItemVariantStable(media: string, first: string, role: string, metrics: Json,
        required: Json, item: Json)
    requires ItemVariant(media, first, metrics, required, item).Some?
    ensures ItemVariant(media, role, metrics, required, ItemVariant(media, first, metrics, required, item).value)
      == ItemVariant(media, role, metrics, required, item)
  {
    hide OutputVariant, Assign, Lookup;
    var ps := Properties(item).value;
    var once := OutputVariant(media, first, metrics, required, ps).value;
    OutputVariantStable(media, first, role, metrics, required, ps);
    var again := OutputVariant(media, role, metrics, required, ps);
    PropertiesOf(item, once, if again.Some? then again.value else ps);
  }

  // Rewriting the rewritten outputs changes nothing.
  lemma {:induction false} ReceiptOutputsStable(items: seq<Json>, pairs: Pairs, metrics: Json, required: Json)
    requires ReceiptOutputs(items, pairs, metrics, required).Some?
    ensures var out := ReceiptOutputs(items, pairs, metrics, required).value;
      ReceiptOutputs(out, pairs, metrics, required) == Some(out)
  {
    hide ItemVariant, MediaOf;
    var out := ReceiptOutputs(items, pairs, metrics, required).value;
    forall i | 0 <= i < |pairs| ensures MediaOf(out[i]) == Some(pairs[i].1) {
      ByMediaIs(items, pairs[i].1);
      VariantMedia(pairs[i].1, pairs[i].0, metrics, required, ByMedia(items, pairs[i].1).value);
    }
    forall i | 0 <= i < |pairs| ensures VariantFor(out, pairs[i], metrics, required) == Some(out[i]) {
      var media := pairs[i].1;
      ByMediaIs(out, media);
      var k :| 0 <= k < |out| && out[k] == ByMedia(out, media).value;
      ItemVariantStable(media, pairs[k].0, pairs[i].0, metrics, required, ByMedia(items, media).value);
    }
    assert AllFound(out, pairs, metrics, required);
    var again := EachVariant(out, pairs, metrics, required);
    assert forall i :: 0 <= i < |pairs| ==> again[i] == out[i];
    assert again == out;
  }
}
