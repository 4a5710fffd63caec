/** The order renderNotes shows: a copy of the notes sorted by updatedAt,
    newest first, with the comparator `b.updatedAt - a.updatedAt`. Sorting is
    stable, so notes touched at the same instant keep the collection's order. */
module Recency {
  import opened Notes

  predicate NewestFirst(s: seq<Note>) {
    forall i, j :: 0 <= i < j < |s| ==> s[i].updatedAt >= s[j].updatedAt
  }

  /** A note at least as new as the head of a newest-first sequence can be
      put in front of it. */
  lemma PrependNewest(y: Note, t: seq<Note>)
    requires NewestFirst(t) && (t == [] || y.updatedAt >= t[0].updatedAt)
    ensures NewestFirst([y] + t)
  {
    var r := [y] + t;
    forall i, j | 0 <= i < j < |r| ensures r[i].updatedAt >= r[j].updatedAt {
      if i == 0 && j > 1 {
        assert t[0].updatedAt >= t[j - 1].updatedAt;
      }
    }
  }

  /** Places `x` before the first note that is not newer than it. */
  function Insert(x: Note, s: seq<Note>): (r: seq<Note>)
    requires NewestFirst(s)
    ensures NewestFirst(r)
    ensures multiset(r) == multiset(s) + multiset{x}
    ensures |r| == |s| + 1 && (r[0] == x || (s != [] && r[0] == s[0]))
  {
    if s == [] || x.updatedAt >= s[0].updatedAt then
      PrependNewest(x, s);
      [x] + s
    else
      var rest := Insert(x, s[1..]);
      assert s == [s[0]] + s[1..];
      PrependNewest(s[0], rest);
      [s[0]] + rest
  }

  /** The sorted copy: newest first, and a permutation of the input. */
  function ByRecency(s: seq<Note>): (r: seq<Note>)
    ensures NewestFirst(r)
    ensures multiset(r) == multiset(s)
  {
    if s == [] then []
    else
      assert s == [s[0]] + s[1..];
      Insert(s[0], ByRecency(s[1..]))
  }

  /** The notes last touched at instant `t`, in their order in `s`. */
  function TouchedAt(s: seq<Note>, t: int): seq<Note> {
    if s == [] then []
    else if s[0].updatedAt == t then [s[0]] + TouchedAt(s[1..], t)
    else TouchedAt(s[1..], t)
  }

  lemma {:induction false} TouchedAtMembers(s: seq<Note>, t: int, n: Note)
    ensures n in TouchedAt(s, t) <==> n in s && n.updatedAt == t
  {
    if s != [] {
      TouchedAtMembers(s[1..], t, n);
      assert n in s <==> n == s[0] || n in s[1..];
    }
  }

  /** Inserting into a sorted sequence puts `x` ahead of every note touched at
      the same instant. */
  lemma {:induction false} InsertStable(x: Note, s: seq<Note>, t: int)
    requires NewestFirst(s)
    ensures TouchedAt(Insert(x, s), t)
         == (if x.updatedAt == t then [x] else []) + TouchedAt(s, t)
  {
    if s == [] || x.updatedAt >= s[0].updatedAt {
      assert ([x] + s)[1..] == s;
    } else {
      InsertStable(x, s[1..], t);
      var r := Insert(x, s);
      assert r[0] == s[0] && r[1..] == Insert(x, s[1..]);
      if x.updatedAt == t {
        assert s[0].updatedAt != t;
      }
    }
  }

  /** The sort is stable: for every instant, the notes touched then appear in
      the view in the same order as in the collection. */
  lemma {:induction false} ByRecencyStable(s: seq<Note>, t: int)
    ensures TouchedAt(ByRecency(s), t) == TouchedAt(s, t)
  {
    if s != [] {
      ByRecencyStable(s[1..], t);
      InsertStable(s[0], ByRecency(s[1..]), t);
    }
  }

  /** Sortedness and stability fix the order completely: two newest-first
      sequences that agree on the notes touched at each instant are equal. */
  lemma {:induction false} StableOrderUnique(a: seq<Note>, b: seq<Note>)
    requires NewestFirst(a) && NewestFirst(b)
    requires forall t :: TouchedAt(a, t) == TouchedAt(b, t)
    ensures a == b
    decreases |a|
  {
    if a != [] && b == [] {
      TouchedAtMembers(a, a[0].updatedAt, a[0]);
    } else if a == [] && b != [] {
      TouchedAtMembers(b, b[0].updatedAt, b[0]);
    } else if a != [] {
      var k := a[0].updatedAt;
      TouchedAtMembers(a, b[0].updatedAt, b[0]);
      TouchedAtMembers(b, b[0].updatedAt, b[0]);
      TouchedAtMembers(a, k, a[0]);
      TouchedAtMembers(b, k, a[0]);
      assert b[0].updatedAt <= k;
      assert k <= b[0].updatedAt;
      assert TouchedAt(a, k) == [a[0]] + TouchedAt(a[1..], k);
      assert TouchedAt(b, k) == [b[0]] + TouchedAt(b[1..], k);
      assert a[0] == b[0] && TouchedAt(a[1..], k) == TouchedAt(b[1..], k) by {
        assert TouchedAt(a, k)[0] == a[0] && TouchedAt(a, k)[1..] == TouchedAt(a[1..], k);
        assert TouchedAt(b, k)[0] == b[0] && TouchedAt(b, k)[1..] == TouchedAt(b[1..], k);
        assert TouchedAt(a, k) == TouchedAt(b, k);
      }
      forall t ensures TouchedAt(a[1..], t) == TouchedAt(b[1..], t) {
        if t != k {
          assert TouchedAt(a, t) == TouchedAt(a[1..], t);
          assert TouchedAt(b, t) == TouchedAt(b[1..], t);
          assert TouchedAt(a, t) == TouchedAt(b, t);
        }
      }
      StableOrderUnique(a[1..], b[1..]);
      assert a == [a[0]] + a[1..] && b == [b[0]] + b[1..];
    }
  }

  /** The view is the one and only stable newest-first ordering of the notes. */
  lemma ByRecencyIsTheStableSort(s: seq<Note>, v: seq<Note>)
    requires NewestFirst(v)
    requires forall t :: TouchedAt(v, t) == TouchedAt(s, t)
    ensures v == ByRecency(s)
  {
    forall t ensures TouchedAt(ByRecency(s), t) == TouchedAt(v, t) {
      ByRecencyStable(s, t);
    }
    StableOrderUnique(ByRecency(s), v);
  }

  /** Three notes touched at t1 < t3 < t2 are shown in the order t2, t3, t1. */
  lemma ByRecencyExample(n1: Note, n2: Note, n3: Note)
    requires n2.updatedAt > n3.updatedAt > n1.updatedAt
    ensures ByRecency([n1, n2, n3]) == [n2, n3, n1]
  {
    assert ByRecency([n3]) == [n3] by {
      assert [n3][1..] == [];
    }
    assert ByRecency([n2, n3]) == [n2, n3] by {
      assert [n2, n3][1..] == [n3];
    }
    assert Insert(n1, [n3]) == [n3, n1] by {
      assert [n3][1..] == [];
    }
    assert Insert(n1, [n2, n3]) == [n2, n3, n1] by {
      assert [n2, n3][1..] == [n3];
    }
    assert [n1, n2, n3][1..] == [n2, n3];
  }
}
