/**
 The output variants the generator makes for the processing receipt, the quality report and the manifest from the
 items of a production receipt, and when two lists of items make the same.  Files are written with sorted keys, so
 objects are compared key by key.
 */
module ProductionOutputs {
  import opened Wrappers
  import opened JsonTree
  import opened ProductionRewrites

  // ---- The same dictionary, whatever the order of its keys ----

  ghost predicate Alike(a: Json, b: Json)
    decreases a
  {
    match (a, b)
    case (Array(x), Array(y)) => |x| == |y| && forall i :: 0 <= i < |x| ==> Alike(x[i], y[i])
    case (Object(x), Object(y)) =>
      && (forall k :: Lookup(x, k).Some? <==> Lookup(y, k).Some?)
      && forall i :: 0 <= i < |x| && Counts(x, i) ==>
        Lookup(y, x[i].key).Some? && Alike(x[i].value, Lookup(y, x[i].key).value)
    case _ => a == b
  }

  // The member is the one its key is looked up by.
  predicate Counts(ms: seq<Member>, i: nat)
    requires i < |ms|
  {
    Lookup(ms, ms[i].key) == Some(ms[i].value)
  }

  // Both are missing, or both are there and alike.
  ghost predicate BothAlike(a: Option<Json>, b: Option<Json>) {
    (a.None? && b.None?) || (a.Some? && b.Some? && Alike(a.value, b.value))
  }

  // Two dictionaries hold the same under a key.
  ghost predicate AlikeAt(x: seq<Member>, y: seq<Member>, k: string) { BothAlike(Lookup(x, k), Lookup(y, k)) }

  ghost predicate ListsAlike(x: seq<Json>, y: seq<Json>) {
    |x| == |y| && forall i :: 0 <= i < |x| ==> Alike(x[i], y[i])
  }

  lemma {:induction false} LookupIsThere(ms: seq<Member>, key: string)
    requires Lookup(ms, key).Some?
    ensures exists i :: 0 <= i < |ms| && ms[i].key == key && Counts(ms, i)
  {
    if ms[0].key == key {
      assert Counts(ms, 0);
    } else {
      LookupIsThere(ms[1..], key);
      var i :| 0 <= i < |ms[1..]| && ms[1..][i].key == key && Counts(ms[1..], i);
      assert ms[i + 1].key == key && Counts(ms, i + 1);
    }
  }

  // Objects are alike exactly when their keys are.
  lemma {:induction false} AlikeByKey(x: seq<Member>, y: seq<Member>)
    ensures Alike(Object(x), Object(y)) <==> forall k :: AlikeAt(x, y, k)
  {
    if Alike(Object(x), Object(y)) {
      forall k ensures AlikeAt(x, y, k) {
        assert Lookup(x, k).Some? <==> Lookup(y, k).Some?;
        if Lookup(x, k).Some? {
          LookupIsThere(x, k);
          var i :| 0 <= i < |x| && x[i].key == k && Counts(x, i);
        }
      }
    }
    if forall k :: AlikeAt(x, y, k) {
      forall k ensures Lookup(x, k).Some? <==> Lookup(y, k).Some? { assert AlikeAt(x, y, k); }
      forall i | 0 <= i < |x| && Counts(x, i)
        ensures Lookup(y, x[i].key).Some? && Alike(x[i].value, Lookup(y, x[i].key).value)
      {
        assert AlikeAt(x, y, x[i].key);
      }
    }
  }

  lemma {:induction false} AlikeItself(a: Json)
    ensures Alike(a, a)
    decreases a
  {
    match a
    case Array(x) =>
      forall i | 0 <= i < |x| ensures Alike(x[i], x[i]) { AlikeItself(x[i]); }
    case Object(x) =>
      forall i | 0 <= i < |x| && Counts(x, i) ensures Alike(x[i].value, Lookup(x, x[i].key).value) {
        AlikeItself(x[i].value);
      }
    case _ =>
  }

  // ---- Removing a key ----

  function Without(ms: seq<Member>, key: string): seq<Member> {
    if ms == [] then []
    else if ms[0].key == key then Without(ms[1..], key)
    else [ms[0]] + Without(ms[1..], key)
  }

  lemma {:induction false} LookupWithout(ms: seq<Member>, key: string, other: string)
    ensures Lookup(Without(ms, key), other) == if other == key then None else Lookup(ms, other)
  {
    if ms != [] {
      LookupWithout(ms[1..], key, other);
      if ms[0].key != key { assert ([ms[0]] + Without(ms[1..], key))[1..] == Without(ms[1..], key); }
    }
  }

  // Removing a key that must be there.
  function Popped(ms: seq<Member>, key: string): Option<seq<Member>> {
    if Lookup(ms, key).None? then None else Some(Without(ms, key))
  }

  // ---- One variant ----

  function Ref(name: string): Json { Object([Member("$ref", Text("#/$defs/" + name))]) }

  function Required(keys: seq<string>): Json { Array(seq(|keys|, i requires 0 <= i < |keys| => Text(keys[i]))) }

  const PROCESSED_KEYS: seq<string> := ["step_id", "candidate_artifact_id", "source_sha256", "locator",
    "runtime_path", "role", "size_bytes", "sha256", "media_type", "metadata"]

  const QA_KEYS: seq<string> := ["candidate_artifact_id", "locator", "runtime_path", "role", "size_bytes", "sha256",
    "media_type", "metadata", "checks"]

  const MANIFEST_KEYS: seq<string> := ["locator", "runtime_path", "role", "size_bytes", "sha256", "media_type"]

  // The item with new properties and a new list of required keys.
  function Shaped(item: Json, ps: seq<Member>, keys: seq<string>): Json
    requires item.Object?
  {
    Object(Assign(WithProperties(item, ps).members, "required", Required(keys)))
  }

  function Processed(item: Json): Option<Json> {
    var ps := Properties(item);
    if ps.None? then None
    else
      Some(Shaped(item, Assign(Assign(ps.value, "step_id", Ref("id")), "source_sha256", Ref("sha256")),
        PROCESSED_KEYS))
  }

  function OrNull(metadata: Json): Json {
    Object([Member("oneOf", Array([metadata, Object([Member("type", Text("null"))])]))])
  }

  // The quality report's variant; `checks` knows the check lists of the media, and raises on others.
  function QaOutput(checks: string -> Option<Json>, processed: Json): Option<Json> {
    var ps := Properties(processed);
    if ps.None? then None
    else
      var one := Popped(ps.value, "step_id");
      var two := if one.None? then None else Popped(one.value, "source_sha256");
      if two.None? then None
      else
        var metadata, media := Lookup(two.value, "metadata"), MediaOf(processed);
        if metadata.None? || media.None? || checks(media.value).None? then None
        else
          Some(Shaped(processed, Assign(Assign(two.value, "metadata", OrNull(metadata.value)), "checks",
            checks(media.value).value), QA_KEYS))
  }

  function ManifestOutput(processed: Json): Option<Json> {
    var ps := Properties(processed);
    if ps.None? then None
    else
      var one := Popped(ps.value, "step_id");
      var two := if one.None? then None else Popped(one.value, "candidate_artifact_id");
      var three := if two.None? then None else Popped(two.value, "source_sha256");
      var four := if three.None? then None else Popped(three.value, "metadata");
      if four.None? then None else Some(Shaped(processed, four.value, MANIFEST_KEYS))
  }

  // ---- The three lists ----

  datatype Variants = Variants(processed: seq<Json>, qa: seq<Json>, manifest: seq<Json>)

  // What one item becomes in the three lists, when nothing raises.
  predicate Derives(checks: string -> Option<Json>, item: Json) {
    var processed := Processed(item);
    processed.Some? && QaOutput(checks, processed.value).Some? && ManifestOutput(processed.value).Some?
  }

  function Derived(checks: string -> Option<Json>, items: seq<Json>): Option<Variants> {
    if exists i :: 0 <= i < |items| && !Derives(checks, items[i]) then None
    else
      Some(Variants(
        seq(|items|, i requires 0 <= i < |items| => Processed(items[i]).value),
        seq(|items|, i requires 0 <= i < |items| => QaOutput(checks, Processed(items[i]).value).value),
        seq(|items|, i requires 0 <= i < |items| => ManifestOutput(Processed(items[i]).value).value)))
  }

  ghost predicate VariantsAlike(a: Variants, b: Variants) {
    ListsAlike(a.processed, b.processed) && ListsAlike(a.qa, b.qa) && ListsAlike(a.manifest, b.manifest)
  }

  // ---- When two items make the same ----

  // Alike in every property but the two the generator overwrites, and in every other key but the required ones.
  ghost predicate ItemsAgree(x: Json, y: Json) {
    && x.Object? && y.Object? && Properties(x).Some? && Properties(y).Some?
    && (forall k :: k != "properties" && k != "required" ==> AlikeAt(x.members, y.members, k))
    && (forall k :: k != "step_id" && k != "source_sha256" ==>
      AlikeAt(Properties(x).value, Properties(y).value, k))
  }

  // Shaping keeps every other key, and makes alike what is alike.
  lemma {:induction false} ShapedLookup(item: Json, ps: seq<Member>, keys: seq<string>, k: string)
    requires item.Object?
    ensures Lookup(Shaped(item, ps, keys).members, k) ==
      if k == "required" then Some(Required(keys)) else if k == "properties" then Some(Object(ps))
      else Lookup(item.members, k)
    ensures Properties(Shaped(item, ps, keys)) == Some(ps)
  {
    LookupAssigned(WithProperties(item, ps).members, "required", Required(keys), k);
    LookupAssigned(WithProperties(item, ps).members, "required", Required(keys), "properties");
    LookupAssigned(item.members, "properties", Object(ps), k);
    LookupAssigned(item.members, "properties", Object(ps), "properties");
  }

  lemma {:induction false} ShapedAlike(x: Json, y: Json, ps: seq<Member>, qs: seq<Member>, keys: seq<string>)
    requires x.Object? && y.Object?
    ensures Alike(Shaped(x, ps, keys), Shaped(y, qs, keys)) <==>
      && Alike(Object(ps), Object(qs))
      && (forall k :: k != "properties" && k != "required" ==> AlikeAt(x.members, y.members, k))
  {
    hide Alike;
    var a, b := Shaped(x, ps, keys).members, Shaped(y, qs, keys).members;
    AlikeByKey(a, b);
    AlikeItself(Required(keys));
    forall k ensures AlikeAt(a, b, k) <==>
      (k == "properties" ==> Alike(Object(ps), Object(qs)))
      && (k != "properties" && k != "required" ==> AlikeAt(x.members, y.members, k))
    {
      ShapedLookup(x, ps, keys, k);
      ShapedLookup(y, qs, keys, k);
    }
    assert AlikeAt(a, b, "properties") <==> Alike(Object(ps), Object(qs));
  }

  // The processed variants of two items are the same exactly when the items agree.
  lemma {:induction false} ProcessedAgree(x: Json, y: Json)
    requires Processed(x).Some? && Processed(y).Some?
    ensures Alike(Processed(x).value, Processed(y).value) <==> ItemsAgree(x, y)
  {
    hide Alike;
    var ps, qs := Properties(x).value, Properties(y).value;
    var p := Assign(Assign(ps, "step_id", Ref("id")), "source_sha256", Ref("sha256"));
    var q := Assign(Assign(qs, "step_id", Ref("id")), "source_sha256", Ref("sha256"));
    ShapedAlike(x, y, p, q, PROCESSED_KEYS);
    AlikeByKey(p, q);
    AlikeItself(Ref("id"));
    AlikeItself(Ref("sha256"));
    forall k ensures AlikeAt(p, q, k) <==>
      (k == "step_id" || k == "source_sha256" || AlikeAt(ps, qs, k))
    {
      TwoAssigned(ps, Ref("id"), Ref("sha256"), k);
      TwoAssigned(qs, Ref("id"), Ref("sha256"), k);
    }
  }

  lemma {:induction false} TwoAssigned(ps: seq<Member>, id: Json, hash: Json, k: string)
    ensures Lookup(Assign(Assign(ps, "step_id", id), "source_sha256", hash), k) ==
      if k == "source_sha256" then Some(hash) else if k == "step_id" then Some(id) else Lookup(ps, k)
  {
    LookupAssigned(Assign(ps, "step_id", id), "source_sha256", hash, k);
    LookupAssigned(ps, "step_id", id, k);
  }

  // ---- The other two lists follow ----

  lemma {:induction false} AlikeParts(a: Json, b: Json)
    requires Alike(a, b) && Properties(a).Some? && Properties(b).Some?
    ensures a.Object? && b.Object? && Alike(Object(Properties(a).value), Object(Properties(b).value))
    ensures forall k :: AlikeAt(a.members, b.members, k)
    ensures forall k :: AlikeAt(Properties(a).value, Properties(b).value, k)
    ensures MediaOf(a) == MediaOf(b)
  {
    hide Alike;
    AlikeByKey(a.members, b.members);
    assert AlikeAt(a.members, b.members, "properties");
    var ps, qs := Properties(a).value, Properties(b).value;
    AlikeByKey(ps, qs);
    var m, n := Lookup(ps, "media_type"), Lookup(qs, "media_type");
    assert AlikeAt(ps, qs, "media_type");
    if m.Some? {
      AlikeShape(m.value, n.value);
      if m.value.Object? {
        AlikeByKey(m.value.members, n.value.members);
        var c, d := Lookup(m.value.members, "const"), Lookup(n.value.members, "const");
        assert AlikeAt(m.value.members, n.value.members, "const");
        if c.Some? { AlikeShape(c.value, d.value); }
      }
    }
  }

  lemma {:induction false} AlikeShape(a: Json, b: Json)
    requires Alike(a, b)
    ensures a.Object? <==> b.Object?
    ensures a.Text? || b.Text? ==> a == b
  {
  }

  lemma {:induction false} OrNullAlike(a: Json, b: Json)
    requires Alike(a, b)
    ensures Alike(OrNull(a), OrNull(b))
  {
    var nothing := Object([Member("type", Text("null"))]);
    AlikeItself(nothing);
    var x, y := Array([a, nothing]), Array([b, nothing]);
    assert Alike(x, y);
    hide Alike;
    AlikeByKey([Member("oneOf", x)], [Member("oneOf", y)]);
    forall k ensures AlikeAt([Member("oneOf", x)], [Member("oneOf", y)], k) {
      assert [Member("oneOf", x)][1..] == [] && [Member("oneOf", y)][1..] == [];
    }
  }

  lemma {:induction false} QaAlike(checks: string -> Option<Json>, a: Json, b: Json)
    requires Alike(a, b) && QaOutput(checks, a).Some? && QaOutput(checks, b).Some?
    ensures Alike(QaOutput(checks, a).value, QaOutput(checks, b).value)
  {
    hide Alike, MediaOf;
    AlikeParts(a, b);
    var ps, qs := Properties(a).value, Properties(b).value;
    var p, q := Without(Without(ps, "step_id"), "source_sha256"), Without(Without(qs, "step_id"), "source_sha256");
    LookupWithout(Without(ps, "step_id"), "source_sha256", "metadata");
    LookupWithout(Without(qs, "step_id"), "source_sha256", "metadata");
    LookupWithout(ps, "step_id", "metadata");
    LookupWithout(qs, "step_id", "metadata");
    assert AlikeAt(ps, qs, "metadata");
    var m, n := OrNull(Lookup(p, "metadata").value), OrNull(Lookup(q, "metadata").value);
    OrNullAlike(Lookup(p, "metadata").value, Lookup(q, "metadata").value);
    var c := checks(MediaOf(a).value).value;
    AlikeItself(c);
    var p', q' := Assign(Assign(p, "metadata", m), "checks", c), Assign(Assign(q, "metadata", n), "checks", c);
    forall k ensures AlikeAt(p', q', k) {
      QaLookup(ps, m, c, k);
      QaLookup(qs, n, c, k);
      assert AlikeAt(ps, qs, k);
    }
    AlikeByKey(p', q');
    ShapedAlike(a, b, p', q', QA_KEYS);
  }

  lemma {:induction false} QaLookup(ps: seq<Member>, metadata: Json, checks: Json, k: string)
    ensures var p := Without(Without(ps, "step_id"), "source_sha256");
      Lookup(Assign(Assign(p, "metadata", metadata), "checks", checks), k) ==
        if k == "checks" then Some(checks) else if k == "metadata" then Some(metadata)
        else if k == "source_sha256" || k == "step_id" then None else Lookup(ps, k)
  {
    var p := Without(Without(ps, "step_id"), "source_sha256");
    LookupAssigned(Assign(p, "metadata", metadata), "checks", checks, k);
    LookupAssigned(p, "metadata", metadata, k);
    LookupWithout(Without(ps, "step_id"), "source_sha256", k);
    LookupWithout(ps, "step_id", k);
  }

  lemma {:induction false} ManifestAlike(a: Json, b: Json)
    requires Alike(a, b) && ManifestOutput(a).Some? && ManifestOutput(b).Some?
    ensures Alike(ManifestOutput(a).value, ManifestOutput(b).value)
  {
    hide Alike, MediaOf;
    AlikeParts(a, b);
    var ps, qs := Properties(a).value, Properties(b).value;
    var p, q := Stripped(ps), Stripped(qs);
    forall k ensures AlikeAt(p, q, k) {
      StrippedLookup(ps, k);
      StrippedLookup(qs, k);
      assert AlikeAt(ps, qs, k);
    }
    AlikeByKey(p, q);
    ShapedAlike(a, b, p, q, MANIFEST_KEYS);
  }

  function Stripped(ps: seq<Member>): seq<Member> {
    Without(Without(Without(Without(ps, "step_id"), "candidate_artifact_id"), "source_sha256"), "metadata")
  }

  lemma {:induction false} StrippedLookup(ps: seq<Member>, k: string)
    ensures Lookup(Stripped(ps), k) ==
      if k in ["step_id", "candidate_artifact_id", "source_sha256", "metadata"] then None else Lookup(ps, k)
  {
    var one := Without(ps, "step_id");
    var two := Without(one, "candidate_artifact_id");
    LookupWithout(ps, "step_id", k);
    LookupWithout(one, "candidate_artifact_id", k);
    LookupWithout(two, "source_sha256", k);
    LookupWithout(Without(two, "source_sha256"), "metadata", k);
  }

  // Two lists of items make the same three lists exactly when they are as long and agree item by item.
  lemma {:induction false} DerivedAgree(checks: string -> Option<Json>, x: seq<Json>, y: seq<Json>)
    requires Derived(checks, x).Some? && Derived(checks, y).Some?
    ensures VariantsAlike(Derived(checks, x).value, Derived(checks, y).value)
      <==> |x| == |y| && forall i :: 0 <= i < |x| ==> ItemsAgree(x[i], y[i])
  {
    hide Alike, Processed, QaOutput, ManifestOutput, ItemsAgree;
    var a, b := Derived(checks, x).value, Derived(checks, y).value;
    if |x| == |y| {
      forall i | 0 <= i < |x| ensures Alike(a.processed[i], b.processed[i]) <==> ItemsAgree(x[i], y[i]) {
        assert Derives(checks, x[i]) && Derives(checks, y[i]);
        ProcessedAgree(x[i], y[i]);
      }
      if forall i :: 0 <= i < |x| ==> ItemsAgree(x[i], y[i]) {
        forall i | 0 <= i < |x| ensures Alike(a.qa[i], b.qa[i]) && Alike(a.manifest[i], b.manifest[i]) {
          assert Derives(checks, x[i]) && Derives(checks, y[i]);
          assert Alike(a.processed[i], b.processed[i]);
          QaAlike(checks, a.processed[i], b.processed[i]);
          ManifestAlike(a.processed[i], b.processed[i]);
        }
      }
      if VariantsAlike(a, b) {
        forall i | 0 <= i < |x| ensures ItemsAgree(x[i], y[i]) { assert Alike(a.processed[i], b.processed[i]); }
      }
    }
  }

  // ---- When an item makes anything ----

  lemma {:induction false} DerivesWhen(checks: string -> Option<Json>, item: Json)
    ensures Derives(checks, item) <==>
      && Properties(item).Some? && Lookup(Properties(item).value, "metadata").Some?
      && Lookup(Properties(item).value, "candidate_artifact_id").Some?
      && MediaOf(item).Some? && checks(MediaOf(item).value).Some?
  {
    if Properties(item).Some? {
      var ps := Properties(item).value;
      var p := Assign(Assign(ps, "step_id", Ref("id")), "source_sha256", Ref("sha256"));
      ShapedLookup(item, p, PROCESSED_KEYS, "properties");
      ProcessedProperties(ps, p);
      StrippedLookup(p, "metadata");
      ShapedMedia(item, p, PROCESSED_KEYS);
    }
  }

  lemma {:induction false} ShapedMedia(item: Json, p: seq<Member>, keys: seq<string>)
    requires Properties(item).Some? && Lookup(p, "media_type") == Lookup(Properties(item).value, "media_type")
    ensures MediaOf(Shaped(item, p, keys)) == MediaOf(item)
  {
    ShapedLookup(item, p, keys, "properties");
  }

  // Which keys can be taken off the processed variant's properties, and what stays.
  lemma {:induction false} ProcessedProperties(ps: seq<Member>, p: seq<Member>)
    requires p == Assign(Assign(ps, "step_id", Ref("id")), "source_sha256", Ref("sha256"))
    ensures Lookup(p, "media_type") == Lookup(ps, "media_type")
    ensures Lookup(p, "step_id").Some? && Lookup(Without(p, "step_id"), "source_sha256").Some?
    ensures Lookup(Without(Without(p, "step_id"), "source_sha256"), "metadata") == Lookup(ps, "metadata")
    ensures Lookup(Without(p, "step_id"), "candidate_artifact_id") == Lookup(ps, "candidate_artifact_id")
    ensures var two := Without(Without(p, "step_id"), "candidate_artifact_id");
      Lookup(two, "source_sha256").Some? && Lookup(Without(two, "source_sha256"), "metadata") == Lookup(ps, "metadata")
  {
    hide Assign, Lookup, Without;
    var one := Without(p, "step_id");
    var two := Without(one, "candidate_artifact_id");
    forall k ensures Lookup(p, k) ==
      if k == "source_sha256" then Some(Ref("sha256")) else if k == "step_id" then Some(Ref("id")) else Lookup(ps, k)
    {
      TwoAssigned(ps, Ref("id"), Ref("sha256"), k);
    }
    LookupWithout(p, "step_id", "source_sha256");
    LookupWithout(p, "step_id", "metadata");
    LookupWithout(p, "step_id", "candidate_artifact_id");
    LookupWithout(one, "source_sha256", "metadata");
    LookupWithout(one, "candidate_artifact_id", "source_sha256");
    LookupWithout(one, "candidate_artifact_id", "metadata");
    LookupWithout(two, "source_sha256", "metadata");
  }

  // Output variants of items that make the three lists make them again.
  lemma {:induction false} VariantDerives(checks: string -> Option<Json>, media: string, role: string, metrics: Json,
        required: Json, item: Json)
    requires Derives(checks, item) && ItemVariant(media, role, metrics, required, item).Some?
    ensures Derives(checks, ItemVariant(media, role, metrics, required, item).value)
  {
    hide Metadata, MediaOf, Derives, Assign, Lookup;
    var ps := Properties(item).value;
    var qs := OutputVariant(media, role, metrics, required, ps).value;
    DerivesWhen(checks, item);
    PropertiesOf(item, qs, qs);
    VariantMedia(media, role, metrics, required, item);
    VariantKeeps(media, role, metrics, required, ps, "metadata");
    VariantKeeps(media, role, metrics, required, ps, "candidate_artifact_id");
    DerivesWhen(checks, WithProperties(item, qs));
  }

  lemma {:induction false} VariantKeeps(media: string, role: string, metrics: Json, required: Json, ps: seq<Member>,
        key: string)
    requires OutputVariant(media, role, metrics, required, ps).Some? && Lookup(ps, key).Some?
    ensures Lookup(OutputVariant(media, role, metrics, required, ps).value, key).Some?
  {
    hide Metadata, Assign, Lookup;
    var named := Assign(ps, "role", Const(role));
    LookupAssigned(ps, "role", Const(role), key);
    if HasMetadataRule(media) {
      LookupAssigned(named, "metadata",
        Metadata(media, role, metrics, required, Lookup(named, "metadata").value).value, key);
    }
  }

  lemma {:induction false} VariantsDerive(checks: string -> Option<Json>, items: seq<Json>, pairs: Pairs,
        metrics: Json, required: Json)
    requires Derived(checks, items).Some? && ReceiptOutputs(items, pairs, metrics, required).Some?
    ensures Derived(checks, ReceiptOutputs(items, pairs, metrics, required).value).Some?
  {
    hide Derives, ItemVariant, MediaOf;
    var out := ReceiptOutputs(items, pairs, metrics, required).value;
    forall i | 0 <= i < |out| ensures Derives(checks, out[i]) {
      ByMediaIs(items, pairs[i].1);
      var item := ByMedia(items, pairs[i].1).value;
      VariantDerives(checks, pairs[i].1, pairs[i].0, metrics, required, item);
    }
  }
}
