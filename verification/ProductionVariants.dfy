/**
 What the production rewrites write: each place they touch holds the value the generator gives it, and every other
 place is as it was.
 */
module ProductionVariants {
  import opened Wrappers
  import opened JsonTree
  import opened ProductionRewrites
  import opened ProductionOutputs
  import opened ProductionBuild
  import Rewrites = ProductionRewrites

  // ---- Role and media variants ----

  // `v` is `b` with the role and the medium made constants.
  predicate IsRoleVariant(b: Json, role: string, media: string, v: Json) {
    && b.Object? && v.Object? && Properties(b).Some? && Properties(v).Some?
    && Lookup(Properties(v).value, "role") == Some(Object([Member("const", Text(role))]))
    && Lookup(Properties(v).value, "media_type") == Some(Object([Member("const", Text(media))]))
  }

  ghost predicate SameOtherKeys(x: seq<Member>, y: seq<Member>, but: set<string>) {
    forall k :: k !in but ==> Lookup(x, k) == Lookup(y, k)
  }

  lemma {:induction false} RoleVariantIs(b: Json, pair: (string, string))
    requires Properties(b).Some?
    ensures var v := RoleVariant(b, pair);
      && IsRoleVariant(b, pair.0, pair.1, v) && SameOtherKeys(v.members, b.members, {"properties"})
      && SameOtherKeys(Properties(v).value, Properties(b).value, {"role", "media_type"})
  {
    var ps := Properties(b).value;
    var qs := Assign(Assign(ps, "role", Const(pair.0)), "media_type", Const(pair.1));
    PropertiesOf(b, qs, qs);
    forall k ensures Lookup(qs, k) ==
      if k == "media_type" then Some(Const(pair.1)) else if k == "role" then Some(Const(pair.0)) else Lookup(ps, k)
    {
      LookupAssigned(Assign(ps, "role", Const(pair.0)), "media_type", Const(pair.1), k);
      LookupAssigned(ps, "role", Const(pair.0), k);
    }
    forall k | k != "properties" ensures Lookup(RoleVariant(b, pair).members, k) == Lookup(b.members, k) {
      LookupAssigned(b.members, "properties", Object(qs), k);
    }
  }

  // The rewritten schema is one variant for each role and medium, in order, of the schema or of its first variant.
  lemma {:induction false} RoleMediaVariantsAre(base: Json, pairs: Pairs)
    requires RoleMediaVariants(base, pairs).Some?
    ensures VariantBase(base).Some? && Properties(VariantBase(base).value).Some?
    ensures exists vs: seq<Json> ::
      RoleMediaVariants(base, pairs).value == Object([Member("oneOf", Array(vs))]) && |vs| == |pairs|
      && forall i :: 0 <= i < |vs| ==> vs[i] == RoleVariant(VariantBase(base).value, pairs[i])
  {
    var vs := Rewrites.Variants(VariantBase(base).value, pairs);
    assert RoleMediaVariants(base, pairs).value == Object([Member("oneOf", Array(vs))]);
  }

  lemma {:induction false} VariantBaseIs(base: Json)
    requires VariantBase(base).Some?
    ensures base.Object?
    ensures Lookup(base.members, "oneOf").None? ==> VariantBase(base) == Some(base)
    ensures Lookup(base.members, "oneOf").Some? ==> exists vs: seq<Json> ::
      vs != [] && Lookup(base.members, "oneOf") == Some(Array(vs)) && VariantBase(base) == Some(vs[0])
  {
    if Lookup(base.members, "oneOf").Some? {
      var vs := Lookup(base.members, "oneOf").value.items;
      assert vs != [] && Lookup(base.members, "oneOf") == Some(Array(vs)) && VariantBase(base) == Some(vs[0]);
    }
  }

  // ---- Receipt outputs ----

  // The metadata of a shader has its stage, that of a model the metrics and their names.
  predicate MetadataFits(media: string, role: string, metrics: Json, required: Json, metadata: Json) {
    if media == "text/x-glsl" then
      Get(metadata, ["properties", "stage"]) == Some(Object([Member("const",
        Text(if role == "vertex_shader" then "vertex" else "fragment"))]))
    else
      media == "model/gltf-binary" ==>
        Get(metadata, ["properties", "metrics", "properties"]) == Some(metrics)
        && Get(metadata, ["properties", "metrics", "required"]) == Some(required)
  }

  // No other branch of the metadata differs.
  ghost predicate MetadataKept(media: string, was: Json, now: Json) {
    forall path ::
      (if media == "text/x-glsl" then Apart(["properties", "stage"], path)
       else Apart(["properties", "metrics", "properties"], path) && Apart(["properties", "metrics", "required"], path))
      ==> Get(now, path) == Get(was, path)
  }

  lemma {:induction false} MetadataIs(media: string, role: string, metrics: Json, required: Json, metadata: Json)
    requires HasMetadataRule(media) && Metadata(media, role, metrics, required, metadata).Some?
    ensures var now := Metadata(media, role, metrics, required, metadata).value;
      MetadataFits(media, role, metrics, required, now) && MetadataKept(media, metadata, now)
  {
    hide Get, AssignIn, Apart;
    if media == "text/x-glsl" {
      assert STAGE_PATH + ["stage"] == ["properties", "stage"];
      GetAssigned(metadata, STAGE_PATH, "stage", Stage(role));
      forall path | Apart(["properties", "stage"], path)
        ensures Get(AssignIn(metadata, STAGE_PATH, "stage", Stage(role)).value, path) == Get(metadata, path)
      {
        GetElsewhere(metadata, STAGE_PATH, "stage", Stage(role), path);
      }
    } else {
      var one := AssignIn(metadata, METRICS_PATH, "properties", metrics).value;
      var p: seq<string> := ["properties", "metrics", "properties"];
      var q: seq<string> := ["properties", "metrics", "required"];
      assert METRICS_PATH + ["properties"] == p && METRICS_PATH + ["required"] == q;
      GetAssigned(metadata, METRICS_PATH, "properties", metrics);
      GetAssigned(one, METRICS_PATH, "required", required);
      Differ(q, p, 2);
      GetElsewhere(one, METRICS_PATH, "required", required, p);
      forall path | Apart(p, path) && Apart(q, path)
        ensures Get(AssignIn(one, METRICS_PATH, "required", required).value, path) == Get(metadata, path)
      {
        GetElsewhere(metadata, METRICS_PATH, "properties", metrics, path);
        GetElsewhere(one, METRICS_PATH, "required", required, path);
      }
    }
  }

  // An output variant has the role, and metadata that fits; everything else is the item's.
  lemma {:induction false} OutputVariantIs(media: string, role: string, metrics: Json, required: Json,
        ps: seq<Member>)
    requires OutputVariant(media, role, metrics, required, ps).Some?
    ensures var qs := OutputVariant(media, role, metrics, required, ps).value;
      && Lookup(qs, "role") == Some(Object([Member("const", Text(role))]))
      && SameOtherKeys(qs, ps, {"role"} + if media in {"text/x-glsl", "model/gltf-binary"} then {"metadata"} else {})
      && (media == "text/x-glsl" || media == "model/gltf-binary" ==>
        && Lookup(ps, "metadata").Some? && Lookup(qs, "metadata").Some?
        && MetadataFits(media, role, metrics, required, Lookup(qs, "metadata").value)
        && MetadataKept(media, Lookup(ps, "metadata").value, Lookup(qs, "metadata").value))
  {
    hide Assign, Lookup, Metadata, MetadataFits, MetadataKept;
    var named := Assign(ps, "role", Const(role));
    forall k ensures Lookup(named, k) == if k == "role" then Some(Const(role)) else Lookup(ps, k) {
      LookupAssigned(ps, "role", Const(role), k);
    }
    if HasMetadataRule(media) {
      var m := Lookup(ps, "metadata").value;
      var now := Metadata(media, role, metrics, required, m).value;
      MetadataIs(media, role, metrics, required, m);
      forall k ensures Lookup(Assign(named, "metadata", now), k) ==
        if k == "metadata" then Some(now) else Lookup(named, k)
      {
        LookupAssigned(named, "metadata", now, k);
      }
    }
  }

  lemma {:induction false} ItemVariantIs(media: string, role: string, metrics: Json, required: Json, item: Json)
    requires ItemVariant(media, role, metrics, required, item).Some?
    ensures var v := ItemVariant(media, role, metrics, required, item).value;
      && item.Object? && v.Object? && Properties(item).Some?
      && Properties(v) == OutputVariant(media, role, metrics, required, Properties(item).value)
      && SameOtherKeys(v.members, item.members, {"properties"})
  {
    var qs := OutputVariant(media, role, metrics, required, Properties(item).value).value;
    PropertiesOf(item, qs, qs);
    forall k | k != "properties" ensures Lookup(WithProperties(item, qs).members, k) == Lookup(item.members, k) {
      LookupAssigned(item.members, "properties", Object(qs), k);
    }
  }

  // ---- The recorded seed's rule ----

  // The rules without any recorded-seed rule, with the generator's put right behind the first fixed-seed rule.
  lemma {:induction false} SeedRuleIsBehindTheFixed(items: seq<Json>, condition: Json)
    requires RequireRecordedSeed(items, condition).Some?
    ensures exists k ::
      BehindFirstFixed(WithoutRecorded(items), k, condition, RequireRecordedSeed(items, condition).value)
  {
    var k := InsertedAt(WithoutRecorded(items), condition);
    assert BehindFirstFixed(WithoutRecorded(items), k, condition, RequireRecordedSeed(items, condition).value);
  }

  predicate BehindFirstFixed(items: seq<Json>, k: int, condition: Json, result: seq<Json>) {
    IsFirstFixed(items, k) && result == InsertedBehind(items, k, condition)
  }

  function InsertedBehind<T>(s: seq<T>, k: int, x: T): seq<T>
    requires 0 <= k < |s|
  {
    s[..k + 1] + [x] + s[k + 1..]
  }

  // What a rule's condition says of the seed.
  predicate AsksOfSeed(item: Json, policy: string) {
    Get(item, ["if", "properties", "reproducibility", "properties", "seed_policy", "const"]) == Some(Text(policy))
  }

  predicate IsFirstFixed(items: seq<Json>, k: int) {
    0 <= k < |items| && AsksOfSeed(items[k], "fixed") && forall i :: 0 <= i < k ==> !AsksOfSeed(items[i], "fixed")
  }

  // The rules taken out are those for a recorded seed of the procedural class, and the rule put in is one of them: it
  // asks for an integer seed.
  lemma {:induction false} RecordedRules(item: Json)
    ensures IsRecorded(item)
      <==> AsksOfSeed(item, "recorded") && AsksOfClass(item, "procedural_offline")
    ensures IsRecorded(RECORDED) && AsksForSeed(RECORDED)
  {
    hide Get;
    TheRuleIsRecorded();
    TheRuleAsksForASeed();
  }

  predicate AsksOfClass(item: Json, name: string) {
    Get(item, ["if", "properties", "production_class", "const"]) == Some(Text(name))
  }

  predicate AsksForSeed(item: Json) {
    && Get(item, ["then", "properties", "toolchain_requirements", "properties", "seed", "type"])
      == Some(Text("integer"))
    && Get(item, ["then", "properties", "toolchain_requirements", "required"]) == Some(Array([Text("seed")]))
  }

  lemma {:induction false} TheRuleAsksForASeed()
    ensures AsksForSeed(RECORDED)
  {
    var seed := Object([Member("type", Text("integer"))]);
    var tools := Object([
      Member("properties", Object([Member("seed", seed)])), Member("required", Array([Text("seed")])),
      Member("type", Text("object"))]);
    var ps := Object([Member("toolchain_requirements", tools)]);
    var consequence := Object([Member("properties", ps), Member("type", Text("object"))]);
    assert RECORDED.members[1..][0] == Member("then", consequence);
    assert Lookup(RECORDED.members, "then") == Some(consequence);
    assert tools.members[1..][0].key == "required" && Lookup(tools.members, "required") == Some(Array([Text("seed")]));
    Below(seed, "type", []);
    Below(Object([Member("seed", seed)]), "seed", ["type"]);
    Below(tools, "properties", ["seed", "type"]);
    Below(ps, "toolchain_requirements", ["properties", "seed", "type"]);
    Below(consequence, "properties", ["toolchain_requirements", "properties", "seed", "type"]);
    Below(RECORDED, "then", ["properties", "toolchain_requirements", "properties", "seed", "type"]);
    Below(tools, "required", []);
    Below(ps, "toolchain_requirements", ["required"]);
    Below(consequence, "properties", ["toolchain_requirements", "required"]);
    Below(RECORDED, "then", ["properties", "toolchain_requirements", "required"]);
  }

  lemma {:induction false} Below(node: Json, key: string, path: seq<string>)
    requires node.Object? && Lookup(node.members, key).Some?
    ensures Get(node, [key] + path) == Get(Lookup(node.members, key).value, path)
    ensures path == [] ==> Get(node, [key] + path) == Some(Lookup(node.members, key).value)
  {
    assert ([key] + path)[1..] == path;
  }

  lemma {:induction false} InsertedAt(items: seq<Json>, condition: Json) returns (k: nat)
    requires InsertAfterFixed(items, condition).Some?
    ensures k < |items| && IsFirstFixed(items, k)
    ensures InsertAfterFixed(items, condition).value == items[..k + 1] + [condition] + items[k + 1..]
  {
    hide Get;
    if IsFixed(items[0]) {
      k := 0;
      assert items[..1] == [items[0]];
    } else {
      var j := InsertedAt(items[1..], condition);
      k := j + 1;
      assert items[..k + 1] == [items[0]] + items[1..][..j + 1] && items[k + 1..] == items[1..][j + 1..];
      forall i | 0 <= i < k ensures !AsksOfSeed(items[i], "fixed") {
        if i > 0 { assert items[i] == items[1..][i - 1]; }
      }
    }
  }

  // Filtering keeps the other rules in their order.
  lemma {:induction false} FilteredTogether(a: seq<Json>, b: seq<Json>)
    ensures WithoutRecorded(a + b) == WithoutRecorded(a) + WithoutRecorded(b)
  {
    hide IsRecorded;
    if a == [] {
      assert a + b == b;
    } else {
      FilteredTogether(a[1..], b);
      assert (a + b)[1..] == a[1..] + b && (a + b)[0] == a[0];
      if !IsRecorded(a[0]) {
        assert [a[0]] + (WithoutRecorded(a[1..]) + WithoutRecorded(b))
          == [a[0]] + WithoutRecorded(a[1..]) + WithoutRecorded(b);
      }
    }
  }

  lemma {:induction false} FilteredAlone(x: Json)
    ensures WithoutRecorded([x]) == if IsRecorded(x) then [] else [x]
  {
    hide IsRecorded;
    assert [x][1..] == [] && WithoutRecorded([x][1..]) == [];
  }

  // ---- The lineage requirement ----

  // The lineage stands right behind the first mention of the receipt, unless it was required already.
  lemma {:induction false} LineageIsBehindTheReceipt(required: seq<string>)
    requires RequireAfter(required, "receipt_lineage", "receipt").Some?
    ensures var r := RequireAfter(required, "receipt_lineage", "receipt").value;
      if "receipt_lineage" in required then r == required
      else exists k :: IsFirst(required, k, "receipt") && r == InsertedBehind(required, k, "receipt_lineage")
  {
    if "receipt_lineage" !in required {
      var k := BehindAnchor(required, "receipt_lineage", "receipt");
      assert IsFirst(required, k, "receipt");
    }
  }

  predicate IsFirst(s: seq<string>, k: int, x: string) { 0 <= k < |s| && s[k] == x && x !in s[..k] }

  lemma {:induction false} BehindAnchor(required: seq<string>, key: string, anchor: string) returns (k: nat)
    requires InsertAfter(required, key, anchor).Some?
    ensures k < |required| && required[k] == anchor && anchor !in required[..k]
    ensures InsertAfter(required, key, anchor).value == required[..k + 1] + [key] + required[k + 1..]
  {
    if required[0] == anchor {
      k := 0;
      assert required[..1] == [required[0]];
    } else {
      var j := BehindAnchor(required[1..], key, anchor);
      k := j + 1;
      assert required[..k] == [required[0]] + required[1..][..j];
      assert required[..k + 1] == [required[0]] + required[1..][..j + 1] && required[k + 1..] == required[1..][j + 1..];
    }
  }

  // ---- The derived variants ----

  function Reference(name: string): Json { Object([Member("$ref", Text("#/$defs/" + name))]) }

  predicate IsList(j: Json, keys: seq<string>) {
    j.Array? && |j.items| == |keys| && forall i :: 0 <= i < |keys| ==> j.items[i] == Text(keys[i])
  }

  // The processed variant asks for a step and a source digest too.
  lemma {:induction false} ProcessedIs(item: Json)
    requires Processed(item).Some?
    ensures var v := Processed(item).value;
      && item.Object? && v.Object? && Properties(item).Some? && Properties(v).Some?
      && SameOtherKeys(v.members, item.members, {"properties", "required"})
      && SameOtherKeys(Properties(v).value, Properties(item).value, {"step_id", "source_sha256"})
      && Lookup(Properties(v).value, "step_id") == Some(Reference("id"))
      && Lookup(Properties(v).value, "source_sha256") == Some(Reference("sha256"))
      && Lookup(v.members, "required").Some?
      && IsList(Lookup(v.members, "required").value, ["step_id", "candidate_artifact_id", "source_sha256", "locator",
        "runtime_path", "role", "size_bytes", "sha256", "media_type", "metadata"])
  {
    var ps := Properties(item).value;
    var qs := Assign(Assign(ps, "step_id", Ref("id")), "source_sha256", Ref("sha256"));
    forall k ensures Lookup(Shaped(item, qs, PROCESSED_KEYS).members, k) ==
      if k == "required" then Some(Required(PROCESSED_KEYS)) else if k == "properties" then Some(Object(qs))
      else Lookup(item.members, k)
    {
      ShapedLookup(item, qs, PROCESSED_KEYS, k);
    }
    ShapedLookup(item, qs, PROCESSED_KEYS, "properties");
    forall k ensures Lookup(qs, k) == if k == "source_sha256" then Some(Ref("sha256"))
      else if k == "step_id" then Some(Ref("id")) else Lookup(ps, k)
    {
      TwoAssigned(ps, Ref("id"), Ref("sha256"), k);
    }
  }

  // The quality report's variant drops both again, lets the metadata be null and adds the medium's checks.
  lemma {:induction false} QaOutputIs(checks: string -> Option<Json>, processed: Json)
    requires QaOutput(checks, processed).Some?
    ensures var v := QaOutput(checks, processed).value;
      && processed.Object? && v.Object? && Properties(processed).Some? && Properties(v).Some?
      && MediaOf(processed).Some? && Lookup(Properties(processed).value, "metadata").Some?
      && SameOtherKeys(v.members, processed.members, {"properties", "required"})
      && SameOtherKeys(Properties(v).value, Properties(processed).value,
        {"step_id", "source_sha256", "metadata", "checks"})
      && Lookup(Properties(v).value, "step_id").None? && Lookup(Properties(v).value, "source_sha256").None?
      && Lookup(Properties(v).value, "checks") == checks(MediaOf(processed).value)
      && Lookup(Properties(v).value, "metadata") == Some(Object([Member("oneOf", Array([
        Lookup(Properties(processed).value, "metadata").value, Object([Member("type", Text("null"))])]))]))
      && Lookup(v.members, "required").Some?
      && IsList(Lookup(v.members, "required").value, ["candidate_artifact_id", "locator", "runtime_path", "role",
        "size_bytes", "sha256", "media_type", "metadata", "checks"])
  {
    hide Lookup, Assign, Without, Shaped, MediaOf;
    var ps := Properties(processed).value;
    LookupWithout(Without(ps, "step_id"), "source_sha256", "metadata");
    LookupWithout(ps, "step_id", "metadata");
    var m, c := OrNull(Lookup(ps, "metadata").value), checks(MediaOf(processed).value).value;
    QaShape(processed, QaProperties(ps, m, c));
    QaPropertiesAre(ps, m, c);
  }

  function QaProperties(ps: seq<Member>, metadata: Json, checks: Json): seq<Member> {
    Assign(Assign(Without(Without(ps, "step_id"), "source_sha256"), "metadata", metadata), "checks", checks)
  }

  lemma {:induction false} QaPropertiesAre(ps: seq<Member>, metadata: Json, checks: Json)
    ensures var qs := QaProperties(ps, metadata, checks);
      && SameOtherKeys(qs, ps, {"step_id", "source_sha256", "metadata", "checks"})
      && Lookup(qs, "step_id").None? && Lookup(qs, "source_sha256").None?
      && Lookup(qs, "checks") == Some(checks) && Lookup(qs, "metadata") == Some(metadata)
  {
    hide Lookup, Assign, Without;
    forall k ensures Lookup(QaProperties(ps, metadata, checks), k) ==
      if k == "checks" then Some(checks) else if k == "metadata" then Some(metadata)
      else if k == "source_sha256" || k == "step_id" then None else Lookup(ps, k)
    {
      QaLookup(ps, metadata, checks, k);
    }
  }

  lemma {:induction false} QaShape(processed: Json, qs: seq<Member>)
    requires processed.Object?
    ensures var v := Shaped(processed, qs, QA_KEYS);
      && Properties(v) == Some(qs) && SameOtherKeys(v.members, processed.members, {"properties", "required"})
      && Lookup(v.members, "required") == Some(Required(QA_KEYS))
  {
    forall k ensures Lookup(Shaped(processed, qs, QA_KEYS).members, k) ==
      if k == "required" then Some(Required(QA_KEYS)) else if k == "properties" then Some(Object(qs))
      else Lookup(processed.members, k)
    {
      ShapedLookup(processed, qs, QA_KEYS, k);
    }
    ShapedLookup(processed, qs, QA_KEYS, "properties");
  }

  // The manifest's variant drops what only processing needs.
  lemma {:induction false} ManifestOutputIs(processed: Json)
    requires ManifestOutput(processed).Some?
    ensures var v := ManifestOutput(processed).value;
      && processed.Object? && v.Object? && Properties(processed).Some? && Properties(v).Some?
      && SameOtherKeys(v.members, processed.members, {"properties", "required"})
      && (forall k :: k in {"step_id", "candidate_artifact_id", "source_sha256", "metadata"} ==>
        Lookup(Properties(v).value, k) == None)
      && SameOtherKeys(Properties(v).value, Properties(processed).value,
        {"step_id", "candidate_artifact_id", "source_sha256", "metadata"})
      && Lookup(v.members, "required").Some?
      && IsList(Lookup(v.members, "required").value,
        ["locator", "runtime_path", "role", "size_bytes", "sha256", "media_type"])
  {
    var ps := Properties(processed).value;
    forall k ensures Lookup(Shaped(processed, Stripped(ps), MANIFEST_KEYS).members, k) ==
      if k == "required" then Some(Required(MANIFEST_KEYS)) else if k == "properties" then Some(Object(Stripped(ps)))
      else Lookup(processed.members, k)
    {
      ShapedLookup(processed, Stripped(ps), MANIFEST_KEYS, k);
    }
    ShapedLookup(processed, Stripped(ps), MANIFEST_KEYS, "properties");
    forall k ensures Lookup(Stripped(ps), k) ==
      if k in {"step_id", "candidate_artifact_id", "source_sha256", "metadata"} then None else Lookup(ps, k)
    {
      StrippedLookup(ps, k);
    }
  }
}
