/**
 A receipt the generator accepts and leaves stale: one output item for each medium, as its lookup by medium allows.
 */
module ProductionStale {
  import opened Wrappers
  import opened JsonTree
  import opened ProductionRewrites
  import opened ProductionOutputs
  import opened ProductionBuild

  const ROLE_MEDIA: Pairs := [
    ("animation", "model/gltf-binary"), ("audio", "audio/wav"), ("clipset", "application/json"),
    ("collision", "model/gltf-binary"), ("font", "font/otf"), ("font", "font/ttf"),
    ("fragment_shader", "text/x-glsl"), ("localized_text", "application/json"), ("model", "model/gltf-binary"),
    ("skeleton", "model/gltf-binary"), ("texture", "image/png"), ("vertex_shader", "text/x-glsl")]

  const MEDIA: seq<string> := ["model/gltf-binary", "audio/wav", "application/json", "font/otf", "font/ttf",
    "text/x-glsl", "image/png"]

  const PLAIN_METADATA: Json := Object([Member("properties", Object([Member("metrics", Object([]))]))])

  function Plain(media: string): Json {
    Object([Member("properties", Object([Member("candidate_artifact_id", Null), Member("media_type", Const(media)),
      Member("metadata", PLAIN_METADATA)]))])
  }

  function PlainItems(media: seq<string>): (r: seq<Json>)
    ensures |r| == |media| && forall i :: 0 <= i < |r| ==> r[i] == Plain(media[i])
  {
    seq(|media|, i requires 0 <= i < |media| => Plain(media[i]))
  }

  function OneForEach(media: seq<string>): Json {
    Object([Member("properties", Object([Member("outputs", Object([Member("items",
      Object([Member("oneOf", Array(PlainItems(media)))]))]))]))])
  }

  lemma {:induction false} PlainLookups(media: string)
    ensures Properties(Plain(media)).Some? && MediaOf(Plain(media)) == Some(media)
    ensures var ps := Properties(Plain(media)).value;
      Lookup(ps, "metadata") == Some(PLAIN_METADATA) && Lookup(ps, "candidate_artifact_id").Some?
  {
    var item := Plain(media);
    var ps := item.members[0].value.members;
    assert Properties(item) == Some(ps);
    assert Lookup(ps[1..], "media_type") == Some(Const(media));
    assert Lookup(ps[1..][1..], "metadata") == Some(PLAIN_METADATA);
    assert Lookup(Const(media).members, "const") == Some(Text(media));
  }

  lemma {:induction false} PlainMetadata(media: string, role: string, metrics: Json, required: Json)
    ensures Metadata(media, role, metrics, required, PLAIN_METADATA).Some?
  {
    var inner := Object([Member("metrics", Object([]))]);
    assert Lookup(PLAIN_METADATA.members, "properties") == Some(inner);
    assert Lookup(inner.members, "metrics") == Some(Object([]));
    if media == "text/x-glsl" {
      assert STAGE_PATH[1..] == [];
      assert AssignIn(inner, STAGE_PATH[1..], "stage", Stage(role)).Some?;
    } else {
      assert METRICS_PATH[1..] == ["metrics"] && ["metrics"][1..] == [];
      assert AssignIn(Object([]), [], "properties", metrics).Some?;
      assert AssignIn(inner, ["metrics"], "properties", metrics).Some?;
      AssignsAgain(PLAIN_METADATA, METRICS_PATH, "properties", metrics, "required", required);
    }
  }

  // Where one key could be assigned, so can another.
  lemma {:induction false} AssignsAgain(node: Json, path: seq<string>, key: string, value: Json, other: string, b: Json)
    requires AssignIn(node, path, key, value).Some?
    ensures AssignIn(AssignIn(node, path, key, value).value, path, other, b).Some?
    decreases |path|
  {
    if path != [] {
      var child := Lookup(node.members, path[0]).value;
      AssignsAgain(child, path[1..], key, value, other, b);
      LookupAssigned(node.members, path[0], AssignIn(child, path[1..], key, value).value, path[0]);
    }
  }

  lemma {:induction false} PlainVariant(media: string, role: string, metrics: Json, required: Json, m: string)
    ensures ItemVariant(media, role, metrics, required, Plain(m)).Some?
  {
    hide Metadata, Assign, Lookup;
    PlainLookups(m);
    PlainMetadata(media, role, metrics, required);
    LookupAssigned(Properties(Plain(m)).value, "role", Const(role), "metadata");
  }

  lemma {:induction false} PlainOutputs(src: Sources, media: seq<string>)
    requires forall i :: 0 <= i < |src.pairs| ==> src.pairs[i].1 in media
    requires forall m :: m in media ==> src.checks(m).Some?
    ensures ReceiptOutputs(PlainItems(media), src.pairs, src.metrics, src.metricNames).Some?
    ensures Derived(src.checks, PlainItems(media)).Some?
  {
    hide ItemVariant, MediaOf, Derives, Properties;
    var items := PlainItems(media);
    forall i | 0 <= i < |items| ensures MediaOf(items[i]) == Some(media[i]) && Derives(src.checks, items[i]) {
      PlainLookups(media[i]);
      DerivesWhen(src.checks, items[i]);
    }
    forall i | 0 <= i < |src.pairs| ensures VariantFor(items, src.pairs[i], src.metrics, src.metricNames).Some? {
      var pair := src.pairs[i];
      var k :| 0 <= k < |media| && media[k] == pair.1;
      ByMediaIs(items, pair.1);
      assert MediaOf(items[k]) == Some(pair.1);
      var j :| 0 <= j < |items| && items[j] == ByMedia(items, pair.1).value;
      PlainVariant(pair.1, pair.0, src.metrics, src.metricNames, media[j]);
    }
  }

  lemma {:induction false} OneForEachHolds(media: seq<string>)
    ensures OutputItems(OneForEach(media)) == Some(PlainItems(media))
    ensures forall v :: AssignIn(OneForEach(media), OUTPUTS, "items", v).Some?
    ensures Get(OneForEach(media), OUTPUTS + ["items"]) == Some(Object([Member("oneOf", Array(PlainItems(media)))]))
  {
    var oneOf := Object([Member("oneOf", Array(PlainItems(media)))]);
    var outputs := Object([Member("items", oneOf)]);
    var properties := Object([Member("outputs", outputs)]);
    var receipt := OneForEach(media);
    var path := OUTPUTS + ["items"];
    assert path[1..] == ["outputs", "items"] && path[1..][1..] == ["items"] && path[1..][1..][1..] == [];
    assert OUTPUTS[1..] == ["outputs"] && OUTPUTS[1..][1..] == [];
    assert Lookup(receipt.members, "properties") == Some(properties);
    assert Lookup(properties.members, "outputs") == Some(outputs);
    assert Lookup(outputs.members, "items") == Some(oneOf);
    GetStep(receipt, path);
    GetStep(properties, path[1..]);
    GetStep(outputs, path[1..][1..]);
    OneOfHolds(Array(PlainItems(media)));
    forall v ensures AssignIn(receipt, OUTPUTS, "items", v).Some? {
      assert AssignIn(outputs, [], "items", v).Some?;
      assert AssignIn(properties, ["outputs"], "items", v).Some?;
    }
  }

  lemma {:induction false} OneForEachBuilds(src: Sources, s: Schemas, media: seq<string>)
    requires Build(src, s).Some? && forall i :: 0 <= i < |src.pairs| ==> src.pairs[i].1 in media
    requires forall m :: m in media ==> src.checks(m).Some?
    ensures Build(src, s.(receipt := OneForEach(media))).Some?
  {
    hide Get, AssignIn, Derived, ReceiptOutputs, RewriteSelection, OneForEach, RewriteRules;
    OneForEachHolds(media);
    PlainOutputs(src, media);
    OneOfHolds(Array(PlainItems(media)));
    RewriteOf(OneForEach(media), OUTPUTS, "items", x => RewriteOutputs(src, x));
  }

  lemma {:induction false} RewriteOf(node: Json, path: seq<string>, key: string, f: Json -> Option<Json>)
    requires Get(node, path + [key]).Some? && f(Get(node, path + [key]).value).Some?
    requires forall v :: AssignIn(node, path, key, v).Some?
    ensures Rewrite(node, path, key, f).Some?
  {
  }

  lemma {:induction false} MediaAreCovered()
    ensures forall i :: 0 <= i < |ROLE_MEDIA| ==> ROLE_MEDIA[i].1 in MEDIA
    ensures forall m :: m in MEDIA ==> exists i :: 0 <= i < |ROLE_MEDIA| && ROLE_MEDIA[i].1 == m
  {
    assert ROLE_MEDIA[0].1 == MEDIA[0] && ROLE_MEDIA[1].1 == MEDIA[1] && ROLE_MEDIA[2].1 == MEDIA[2];
    assert ROLE_MEDIA[3].1 == MEDIA[0] && ROLE_MEDIA[4].1 == MEDIA[3] && ROLE_MEDIA[5].1 == MEDIA[4];
    assert ROLE_MEDIA[6].1 == MEDIA[5] && ROLE_MEDIA[7].1 == MEDIA[2] && ROLE_MEDIA[8].1 == MEDIA[0];
    assert ROLE_MEDIA[9].1 == MEDIA[0] && ROLE_MEDIA[10].1 == MEDIA[6] && ROLE_MEDIA[11].1 == MEDIA[5];
  }

  // A medium with an output has its check list: the build of any receipt needed it.
  lemma {:induction false} ChecksKnown(src: Sources, s: Schemas, i: nat)
    requires Build(src, s).Some? && i < |src.pairs|
    ensures src.checks(src.pairs[i].1).Some?
  {
    hide Get, AssignIn, RewriteSelection, RewriteRules, ItemVariant, MediaOf, Derives;
    ReceiptHolds(src, s.receipt);
    var items := OutputItems(s.receipt).value;
    assert VariantFor(items, src.pairs[i], src.metrics, src.metricNames).Some?;
    ByMediaIs(items, src.pairs[i].1);
    var item := ByMedia(items, src.pairs[i].1).value;
    assert Derives(src.checks, item);
    DerivesWhen(src.checks, item);
  }

  // With the program's roles and media, and any other schemas that build: the receipt with one item for each of the
  // seven media builds, and a second build changes what the first one wrote.
  lemma {:induction false} OneForEachMediumIsStale(src: Sources, s: Schemas)
    requires src.pairs == ROLE_MEDIA && Build(src, s).Some?
    ensures var t := s.(receipt := OneForEach(MEDIA));
      && Build(src, t).Some? && Build(src, Build(src, t).value.schemas).Some?
      && !SameFiles(Build(src, t).value, Build(src, Build(src, t).value.schemas).value)
  {
    hide Build, SameFiles, OneForEach;
    MediaAreCovered();
    forall m | m in MEDIA ensures src.checks(m).Some? {
      var i :| 0 <= i < |ROLE_MEDIA| && ROLE_MEDIA[i].1 == m;
      ChecksKnown(src, s, i);
    }
    OneForEachBuilds(src, s, MEDIA);
    OneForEachHolds(MEDIA);
    OtherNumbersAreStale(src, s.(receipt := OneForEach(MEDIA)));
  }
}
