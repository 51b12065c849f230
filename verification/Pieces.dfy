/**
 One sequence occurring inside another at a given place, without slices: the vocabulary in which
 both directions of every parser proof are written.
 */
module Pieces {
  // Element `c` stands at place `i`.
  predicate LooksAt<T(==)>(text: seq<T>, i: nat, c: T) { i < |text| && text[i] == c }

  predicate Occurs<T(==)>(text: seq<T>, i: nat, s: seq<T>) {
    i + |s| <= |text| && forall k :: 0 <= k < |s| ==> text[i + k] == s[k]
  }

  // `s` is the text from `i` up to `j`.
  predicate Spans<T(==)>(text: seq<T>, i: nat, j: nat, s: seq<T>) { Occurs(text, i, s) && j == i + |s| }

  lemma {:induction false} Split<T>(text: seq<T>, i: nat, a: seq<T>, c: seq<T>)
    ensures Occurs(text, i, a + c) <==> Occurs(text, i, a) && Occurs(text, i + |a|, c)
  {
    var t := a + c;
    if Occurs(text, i, t) {
      forall k | 0 <= k < |a| ensures text[i + k] == a[k] { assert t[k] == a[k]; }
      forall k | 0 <= k < |c| ensures text[i + |a| + k] == c[k] {
        var m := |a| + k;
        assert text[i + m] == t[m];
      }
    }
    if Occurs(text, i, a) && Occurs(text, i + |a|, c) {
      forall k | 0 <= k < |t| ensures text[i + k] == t[k] {
        if k >= |a| { assert text[i + |a| + (k - |a|)] == c[k - |a|]; }
      }
    }
  }

  lemma {:induction false} Single<T>(text: seq<T>, i: nat, c: T)
    ensures Occurs(text, i, [c]) <==> LooksAt(text, i, c)
  {
    if Occurs(text, i, [c]) { assert text[i + 0] == [c][0]; }
  }

  lemma {:induction false} First<T>(text: seq<T>, i: nat, c: T, s: seq<T>)
    ensures Occurs(text, i, [c] + s) <==> LooksAt(text, i, c) && Occurs(text, i + 1, s)
  {
    Split(text, i, [c], s);
    Single(text, i, c);
  }

  lemma {:induction false} FirstOf<T>(text: seq<T>, i: nat, s: seq<T>)
    requires Occurs(text, i, s) && s != []
    ensures LooksAt(text, i, s[0]) && Occurs(text, i + 1, s[1..])
  {
    assert s == [s[0]] + s[1..];
    First(text, i, s[0], s[1..]);
  }

  lemma {:induction false} AllOf<T>(text: seq<T>)
    ensures Occurs(text, 0, text)
  {
  }

  lemma {:induction false} Join<T>(text: seq<T>, i: nat, j: nat, k: nat, a: seq<T>, c: seq<T>)
    requires Spans(text, i, j, a) && Spans(text, j, k, c)
    ensures Spans(text, i, k, a + c)
  {
    Split(text, i, a, c);
  }

  lemma {:induction false} JoinOne<T>(text: seq<T>, i: nat, k: nat, c: T, s: seq<T>)
    requires LooksAt(text, i, c) && Spans(text, i + 1, k, s)
    ensures Spans(text, i, k, [c] + s)
  {
    First(text, i, c, s);
  }

  lemma {:induction false} One<T>(text: seq<T>, i: nat, c: T)
    requires LooksAt(text, i, c)
    ensures Spans(text, i, i + 1, [c])
  {
    Single(text, i, c);
  }

  lemma {:induction false} SpansOccurs<T>(text: seq<T>, i: nat, s: seq<T>)
    requires Occurs(text, i, s)
    ensures Spans(text, i, i + |s|, s)
  {
  }

  lemma {:induction false} SpansAll<T>(text: seq<T>, s: seq<T>)
    requires Spans(text, 0, |text|, s)
    ensures text == s
  {
    forall k | 0 <= k < |s| ensures text[k] == s[k] { assert text[0 + k] == s[k]; }
  }
}
