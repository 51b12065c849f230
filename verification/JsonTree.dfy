/** JSON values as the schema generators hold them: objects keep their keys in order. */
module JsonTree {
  import opened Wrappers

  datatype Json = Null | Bool(b: bool) | Number(n: int) | Text(s: string) | Array(items: seq<Json>)
    | Object(members: seq<Member>)

  datatype Member = Member(key: string, value: Json)

  predicate HasKey(ms: seq<Member>, key: string) { exists i :: 0 <= i < |ms| && ms[i].key == key }

  // Assigning to a key: in its place when it is there, otherwise at the end.
  function Assign(ms: seq<Member>, key: string, value: Json): (r: seq<Member>)
    ensures HasKey(r, key)
  {
    if ms == [] then
      assert [Member(key, value)][0].key == key;
      [Member(key, value)]
    else if ms[0].key == key then
      assert ([Member(key, value)] + ms[1..])[0].key == key;
      [Member(key, value)] + ms[1..]
    else
      var rest := Assign(ms[1..], key, value);
      assert forall i :: 0 <= i < |rest| ==> ([ms[0]] + rest)[i + 1] == rest[i];
      [ms[0]] + rest
  }

  function Lookup(ms: seq<Member>, key: string): Option<Json> {
    if ms == [] then None else if ms[0].key == key then Some(ms[0].value) else Lookup(ms[1..], key)
  }

  // The last assignment to a key is the one that counts.
  lemma {:induction false} AssignTwice(ms: seq<Member>, key: string, a: Json, b: Json)
    ensures Assign(Assign(ms, key, a), key, b) == Assign(ms, key, b)
  {
    if ms != [] && ms[0].key != key {
      AssignTwice(ms[1..], key, a, b);
      assert ([ms[0]] + Assign(ms[1..], key, a))[1..] == Assign(ms[1..], key, a);
    }
  }

  lemma {:induction false} LookupAssigned(ms: seq<Member>, key: string, value: Json, other: string)
    ensures Lookup(Assign(ms, key, value), other) == if other == key then Some(value) else Lookup(ms, other)
  {
    if ms != [] && ms[0].key != key {
      LookupAssigned(ms[1..], key, value, other);
      assert ([ms[0]] + Assign(ms[1..], key, value))[1..] == Assign(ms[1..], key, value);
    }
  }

  // Assignments to two keys that are already there can be exchanged.
  lemma {:induction false} AssignOther(ms: seq<Member>, key: string, a: Json, other: string, b: Json)
    requires key != other && HasKey(ms, other)
    ensures Assign(Assign(ms, key, a), other, b) == Assign(Assign(ms, other, b), key, a)
  {
    var rest := ms[1..];
    if ms[0].key == other {
      assert ([Member(other, b)] + rest)[1..] == rest;
      assert ([ms[0]] + Assign(rest, key, a))[1..] == Assign(rest, key, a);
    } else {
      var i :| 0 <= i < |ms| && ms[i].key == other;
      assert rest[i - 1].key == other;
      assert ([ms[0]] + Assign(rest, other, b))[1..] == Assign(rest, other, b);
      if ms[0].key == key {
        assert ([Member(key, a)] + rest)[1..] == rest;
      } else {
        AssignOther(rest, key, a, other, b);
        assert ([ms[0]] + Assign(rest, key, a))[1..] == Assign(rest, key, a);
      }
    }
  }

  // ---- Places ----

  // Where the assignment goes.
  function Place(ms: seq<Member>, key: string): (i: nat)
    requires HasKey(ms, key)
    ensures i < |ms| && ms[i].key == key
  {
    if ms[0].key == key then 0
    else
      var i :| 0 <= i < |ms| && ms[i].key == key;
      assert ms[1..][i - 1].key == key;
      1 + Place(ms[1..], key)
  }

  lemma {:induction false} AssignedInPlace(ms: seq<Member>, key: string, value: Json)
    requires HasKey(ms, key)
    ensures Assign(ms, key, value) == ms[Place(ms, key) := Member(key, value)]
  {
    if ms[0].key != key {
      var i :| 0 <= i < |ms| && ms[i].key == key;
      assert ms[1..][i - 1].key == key;
      AssignedInPlace(ms[1..], key, value);
    }
  }

  function Children(node: Json): seq<Json> {
    match node
    case Array(items) => items
    case Object(ms) => seq(|ms|, i requires 0 <= i < |ms| => ms[i].value)
    case _ => []
  }

  // The node reached by taking the given child at each step.
  function At(node: Json, path: seq<nat>): Option<Json>
    decreases |path|
  {
    if path == [] then Some(node)
    else if path[0] < |Children(node)| then At(Children(node)[path[0]], path[1..])
    else None
  }

  // Two nodes alike but for what is below them.
  predicate SameLabel(a: Json, b: Json) {
    match (a, b)
    case (Array(x), Array(y)) => |x| == |y|
    case (Object(x), Object(y)) => |x| == |y| && forall i :: 0 <= i < |x| ==> x[i].key == y[i].key
    case _ => a == b
  }
}
