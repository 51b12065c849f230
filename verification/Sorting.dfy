/**
 Sorting keyed values by the lexicographic order of their keys, as `sorted` does on dictionary items
 and `list.sort(key=...)` on records: a permutation, in order, stable, and for distinct keys
 independent of the order the values came in.
 */
module Sorting {
  // Keys are code units: bytes of a tag, or the UTF-8 bytes of an identifier.
  type Key = seq<nat>

  datatype Keyed<+T> = Keyed(key: Key, value: T)

  predicate LexLe(a: Key, b: Key) {
    a == [] || (b != [] && (a[0] < b[0] || (a[0] == b[0] && LexLe(a[1..], b[1..]))))
  }

  lemma {:induction false} LexTotal(a: Key, b: Key)
    ensures LexLe(a, b) || LexLe(b, a)
    ensures LexLe(a, b) && LexLe(b, a) ==> a == b
  {
    if a != [] && b != [] && a[0] == b[0] {
      LexTotal(a[1..], b[1..]);
      assert a == [a[0]] + a[1..] && b == [b[0]] + b[1..];
    }
  }

  // The keys agree before `d`, where `a` ends or has the smaller unit.
  predicate IsBelow(a: Key, b: Key, d: int) {
    && 0 <= d <= |a| && d < |b|
    && (forall i :: 0 <= i < d ==> a[i] == b[i])
    && (d < |a| ==> a[d] < b[d])
  }

  ghost predicate Below(a: Key, b: Key) { exists d :: IsBelow(a, b, d) }

  // The order is that of the first difference, a prefix coming first.
  lemma {:induction false} LexLeMeans(a: Key, b: Key)
    ensures LexLe(a, b) <==> a == b || Below(a, b)
  {
    if a == [] {
      assert b == [] || IsBelow(a, b, 0);
    } else if b != [] {
      LexLeMeans(a[1..], b[1..]);
      assert a == [a[0]] + a[1..] && b == [b[0]] + b[1..];
      if a[0] < b[0] {
        assert IsBelow(a, b, 0);
      } else if a[0] == b[0] {
        if e :| IsBelow(a[1..], b[1..], e) { assert IsBelow(a, b, e + 1); }
        if d :| IsBelow(a, b, d) {
          assert d > 0;
          forall i | 0 <= i < d - 1 ensures a[1..][i] == b[1..][i] { assert a[i + 1] == b[i + 1]; }
          assert IsBelow(a[1..], b[1..], d - 1);
        }
      } else {
        forall d ensures !IsBelow(a, b, d) {}
      }
    }
  }

  lemma {:induction false} LexTransitive(a: Key, b: Key, c: Key)
    requires LexLe(a, b) && LexLe(b, c)
    ensures LexLe(a, c)
  {
    if a != [] && a[0] == b[0] && b[0] == c[0] { LexTransitive(a[1..], b[1..], c[1..]); }
  }

  predicate Ascending<T>(s: seq<Keyed<T>>) {
    forall i, j :: 0 <= i < j < |s| ==> LexLe(s[i].key, s[j].key)
  }

  predicate DistinctKeys<T>(s: seq<Keyed<T>>) {
    forall i, j :: 0 <= i < j < |s| ==> s[i].key != s[j].key
  }

  // Puts `x` before the first value with a greater or equal key.
  function Insert<T>(x: Keyed<T>, s: seq<Keyed<T>>): (r: seq<Keyed<T>>)
    ensures |r| == |s| + 1
  {
    if s == [] || LexLe(x.key, s[0].key) then [x] + s else [s[0]] + Insert(x, s[1..])
  }

  function Sort<T>(s: seq<Keyed<T>>): (r: seq<Keyed<T>>)
    ensures |r| == |s|
  {
    if s == [] then [] else Insert(s[0], Sort(s[1..]))
  }

  lemma {:induction false} InsertPermutes<T>(x: Keyed<T>, s: seq<Keyed<T>>)
    ensures multiset(Insert(x, s)) == multiset{x} + multiset(s)
  {
    if s == [] || LexLe(x.key, s[0].key) {
    } else {
      InsertPermutes(x, s[1..]);
      assert s == [s[0]] + s[1..];
    }
  }

  lemma {:induction false} SortPermutes<T>(s: seq<Keyed<T>>)
    ensures multiset(Sort(s)) == multiset(s)
  {
    if s != [] {
      SortPermutes(s[1..]);
      InsertPermutes(s[0], Sort(s[1..]));
      assert s == [s[0]] + s[1..];
    }
  }

  lemma {:induction false} InsertAscends<T>(x: Keyed<T>, s: seq<Keyed<T>>)
    requires Ascending(s)
    ensures Ascending(Insert(x, s))
  {
    if s == [] {
    } else if LexLe(x.key, s[0].key) {
      forall j | 0 <= j < |s| ensures LexLe(x.key, s[j].key) {
        if j > 0 { LexTransitive(x.key, s[0].key, s[j].key); }
      }
    } else {
      InsertAscends(x, s[1..]);
      InsertPermutes(x, s[1..]);
      LexTotal(x.key, s[0].key);
      var r := Insert(x, s[1..]);
      forall j | 0 <= j < |r| ensures LexLe(s[0].key, r[j].key) {
        assert r[j] in multiset(r);
        assert r[j] == x || r[j] in s[1..];
        if r[j] != x {
          var i :| 0 <= i < |s[1..]| && s[1..][i] == r[j];
          assert LexLe(s[0].key, s[i + 1].key);
        }
      }
    }
  }

  lemma {:induction false} SortAscends<T>(s: seq<Keyed<T>>)
    ensures Ascending(Sort(s))
  {
    if s != [] {
      SortAscends(s[1..]);
      InsertAscends(s[0], Sort(s[1..]));
    }
  }

  lemma {:induction false} SameElements<T>(s: seq<Keyed<T>>, x: Keyed<T>)
    ensures x in Sort(s) <==> x in s
  {
    SortPermutes(s);
    assert x in Sort(s) <==> x in multiset(Sort(s));
    assert x in s <==> x in multiset(s);
  }

  // Distinct keys are a property of the values, not of their order.
  lemma {:induction false} DistinctByMultiset<T>(a: seq<Keyed<T>>, b: seq<Keyed<T>>)
    requires multiset(a) == multiset(b) && DistinctKeys(a)
    ensures DistinctKeys(b)
  {
    forall i, j | 0 <= i < j < |b| ensures b[i].key != b[j].key {
      if b[i].key == b[j].key {
        assert b[i] in multiset(b) && b[j] in multiset(b);
        assert b[i] in a && b[j] in a;
        var p :| 0 <= p < |a| && a[p] == b[i];
        var q :| 0 <= q < |a| && a[q] == b[j];
        assert p == q;
        Twice(b, i, j);
        Once(a, p);
        assert false;
      }
    }
  }

  lemma {:induction false} Twice<T>(s: seq<T>, i: nat, j: nat)
    requires i < j < |s| && s[i] == s[j]
    ensures multiset(s)[s[i]] >= 2
  {
    assert s == s[..i] + [s[i]] + s[i + 1..j] + [s[j]] + s[j + 1..];
  }

  lemma {:induction false} Once<T>(s: seq<Keyed<T>>, i: nat)
    requires i < |s| && DistinctKeys(s)
    ensures multiset(s)[s[i]] <= 1
  {
    assert s == s[..i] + [s[i]] + s[i + 1..];
    assert s[i] !in s[..i] && s[i] !in s[i + 1..];
  }

  lemma {:induction false} SameHead<T>(a: seq<Keyed<T>>, b: seq<Keyed<T>>)
    requires Ascending(a) && Ascending(b) && multiset(a) == multiset(b) && DistinctKeys(a) && a != [] && b != []
    ensures a[0] == b[0]
  {
    hide LexLe;
    DistinctByMultiset(a, b);
    assert a[0] in multiset(b) && b[0] in multiset(a);
    var i :| 0 <= i < |b| && b[i] == a[0];
    var j :| 0 <= j < |a| && a[j] == b[0];
    if i > 0 && j > 0 {
      LexTotal(a[0].key, b[0].key);
      assert false;
    }
  }

  lemma {:induction false} TailMultiset<T>(s: seq<T>)
    requires s != []
    ensures multiset(s[1..]) == multiset(s) - multiset{s[0]}
  {
    assert s == [s[0]] + s[1..];
  }

  lemma {:induction false} SameLength<T>(a: seq<T>, b: seq<T>)
    requires multiset(a) == multiset(b)
    ensures |a| == |b|
  {
    assert |a| == |multiset(a)| && |b| == |multiset(b)|;
  }

  lemma {:induction false} HeadAndTail<T>(a: seq<T>, b: seq<T>)
    requires a != [] && b != [] && a[0] == b[0] && a[1..] == b[1..]
    ensures a == b
  {
    assert a == [a[0]] + a[1..] && b == [b[0]] + b[1..];
  }

  lemma {:induction false} AscendingUnique<T>(a: seq<Keyed<T>>, b: seq<Keyed<T>>)
    requires Ascending(a) && Ascending(b) && multiset(a) == multiset(b) && DistinctKeys(a)
    ensures a == b
    decreases |a|
  {
    hide LexLe;
    SameLength(a, b);
    if a != [] {
      SameHead(a, b);
      TailMultiset(a);
      TailMultiset(b);
      AscendingUnique(a[1..], b[1..]);
      HeadAndTail(a, b);
    }
  }

  // With distinct keys, every permutation sorts to the same sequence.
  lemma {:induction false} SortIgnoresOrder<T>(a: seq<Keyed<T>>, b: seq<Keyed<T>>)
    requires multiset(a) == multiset(b) && DistinctKeys(a)
    ensures Sort(a) == Sort(b)
  {
    SortPermutes(a);
    SortPermutes(b);
    SortAscends(a);
    SortAscends(b);
    DistinctByMultiset(a, Sort(a));
    AscendingUnique(Sort(a), Sort(b));
  }
}
