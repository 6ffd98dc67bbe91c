/** Sequence vocabulary shared by the model: JavaScript's `indexOf`, deduplication by a
    `Set`, removing every occurrence of a value, and what "keeps the relative order"
    means. */
module Sequences {

  datatype Option<+T> = None | Some(value: T)

  /** No element occurs twice. */
  predicate NoDup<T(==)>(s: seq<T>) {
    forall i, j :: 0 <= i < j < |s| ==> s[i] != s[j]
  }

  /** `Array.prototype.indexOf`: the position of the first occurrence of `x`, or -1. */
  function IndexOf<T(==)>(s: seq<T>, x: T): (r: int)
    ensures -1 <= r < |s|
    ensures r == -1 <==> x !in s
    ensures 0 <= r ==> s[r] == x && x !in s[..r]
  {
    if s == [] then -1
    else if s[0] == x then 0
    else
      var k := IndexOf(s[1..], x);
      if k == -1 then -1
      else
        assert s[..k + 1] == [s[0]] + s[1..][..k];
        k + 1
  }

  /** Every element of `r` comes from `s`, and `r` lists them in the order of their
      first occurrence in `s` (so `r` has no duplicates). */
  predicate InOrderOf<T(==)>(r: seq<T>, s: seq<T>) {
    && (forall x :: x in r ==> x in s)
    && (forall i, j :: 0 <= i < j < |r| ==> IndexOf(s, r[i]) < IndexOf(s, r[j]))
  }

  /** The tail of a duplicate-free list is duplicate-free and lacks the head. */
  lemma NoDupTail<T>(s: seq<T>)
    requires NoDup(s) && s != []
    ensures NoDup(s[1..]) && s[0] !in s[1..]
  {
    var t := s[1..];
    forall a, b | 0 <= a < b < |t| ensures t[a] != t[b] {
      assert t[a] == s[a + 1] && t[b] == s[b + 1];
    }
    forall k | 0 <= k < |t| ensures t[k] != s[0] {
      assert t[k] == s[k + 1];
    }
  }

  lemma InOrderNoDup<T>(r: seq<T>, s: seq<T>)
    requires InOrderOf(r, s)
    ensures NoDup(r)
  {
    forall i, j | 0 <= i < j < |r| ensures r[i] != r[j] {
      assert IndexOf(s, r[i]) < IndexOf(s, r[j]);
    }
  }

  /** Dropping the head of `s`, which `t` does not mention, shifts every index by one. */
  lemma InOrderCons<T>(s: seq<T>, t: seq<T>)
    requires s != [] && s[0] !in t
    requires InOrderOf(t, s[1..])
    ensures InOrderOf(t, s)
    ensures InOrderOf([s[0]] + t, s)
  {
    forall y | y in t ensures y in s && IndexOf(s, y) == IndexOf(s[1..], y) + 1 {
      assert y != s[0];
    }
    var u := [s[0]] + t;
    forall i, j | 0 <= i < j < |u| ensures IndexOf(s, u[i]) < IndexOf(s, u[j]) {
      assert u[j] == t[j - 1] && u[j] in t;
      if i > 0 {
        assert u[i] == t[i - 1];
      }
    }
  }

  /** Order is transitive: a list in the order of `b`, which is in the order of `c`,
      is in the order of `c`. */
  lemma InOrderTrans<T>(a: seq<T>, b: seq<T>, c: seq<T>)
    requires InOrderOf(a, b) && InOrderOf(b, c)
    ensures InOrderOf(a, c)
  {
    forall i, j | 0 <= i < j < |a| ensures IndexOf(c, a[i]) < IndexOf(c, a[j]) {
      var u, v := IndexOf(b, a[i]), IndexOf(b, a[j]);
      assert b[u] == a[i] && b[v] == a[j];
    }
  }

  /** A prefix keeps the order. */
  lemma InOrderPrefix<T>(r: seq<T>, s: seq<T>, n: nat)
    requires InOrderOf(r, s) && n <= |r|
    ensures InOrderOf(r[..n], s)
  {
    forall x | x in r[..n] ensures x in r { }
  }

  lemma HeadIsMember<T>(s: seq<T>)
    ensures s != [] ==> s[0] in s
  {
  }

  /** Two lists with the same elements, both in the order of `s`, are equal: the
      order of first occurrence in `s` fixes the list. */
  lemma {:induction false} InOrderUnique<T>(a: seq<T>, b: seq<T>, s: seq<T>)
    requires InOrderOf(a, s) && InOrderOf(b, s)
    requires forall x :: x in a <==> x in b
    ensures a == b
  {
    if a != [] && b != [] {
      assert a[0] in a && b[0] in b;
      var k, m := IndexOf(b, a[0]), IndexOf(a, b[0]);
      assert IndexOf(s, a[0]) <= IndexOf(s, a[m]);
      assert IndexOf(s, b[0]) <= IndexOf(s, b[k]);
      assert s[IndexOf(s, a[0])] == a[0] && s[IndexOf(s, b[0])] == b[0];
      InOrderNoDup(a, s);
      InOrderNoDup(b, s);
      assert a == [a[0]] + a[1..] && b == [b[0]] + b[1..];
      assert a[0] == b[0];
      forall x ensures x in a[1..] <==> x in b[1..] {
        if x in a[1..] {
          var i := IndexOf(a[1..], x);
          assert a[i + 1] == x && x != a[0];
          assert x in b && x != b[0];
          assert x == b[IndexOf(b, x)];
        }
        if x in b[1..] {
          var j := IndexOf(b[1..], x);
          assert b[j + 1] == x && x != b[0];
          assert x in a && x != a[0];
          assert x == a[IndexOf(a, x)];
        }
      }
      InOrderUnique(a[1..], b[1..], s);
    } else {
      HeadIsMember(a);
      HeadIsMember(b);
    }
  }

  /** `s` with every occurrence of `x` filtered out. */
  function Without<T(==)>(s: seq<T>, x: T): (r: seq<T>)
    ensures forall y :: y in r ==> y in s && y != x
    ensures forall y :: y in s && y != x ==> y in r
    ensures |r| <= |s|
  {
    if s == [] then []
    else if s[0] == x then Without(s[1..], x)
    else [s[0]] + Without(s[1..], x)
  }

  /** Filtering out an absent value changes nothing. */
  lemma {:induction false} WithoutAbsent<T>(s: seq<T>, x: T)
    requires x !in s
    ensures Without(s, x) == s
  {
    if s != [] {
      WithoutAbsent(s[1..], x);
      assert s == [s[0]] + s[1..];
    }
  }

  /** On a duplicate-free list, `splice(i, 1)` at the index of `s[i]` is the same as
      filtering `s[i]` out. */
  lemma {:induction false} WithoutAt<T>(s: seq<T>, i: nat)
    requires NoDup(s) && i < |s|
    ensures s[..i] + s[i + 1..] == Without(s, s[i])
  {
    if i == 0 {
      NoDupTail(s);
      WithoutAbsent(s[1..], s[0]);
    } else {
      var t := s[1..];
      NoDupTail(s);
      assert t[i - 1] == s[i];
      WithoutAt(t, i - 1);
      assert s[0] != s[i];
      assert s[..i] + s[i + 1..] == [s[0]] + (t[..i - 1] + t[i..]);
    }
  }

  /** Filtering a prefix gives a prefix of the filtered list. */
  lemma {:induction false} WithoutPrefix<T>(s: seq<T>, x: T, n: nat)
    requires n <= |s|
    ensures Without(s[..n], x) <= Without(s, x)
  {
    if n > 0 {
      WithoutPrefix(s[1..], x, n - 1);
      assert s[..n][1..] == s[1..][..n - 1];
    }
  }

  /** On a duplicate-free list, filtering one value out of a prefix loses at most one
      entry. */
  lemma WithoutPrefixLength<T>(s: seq<T>, x: T, n: nat)
    requires NoDup(s) && n <= |s|
    ensures |Without(s[..n], x)| >= n - 1
  {
    var p := s[..n];
    assert NoDup(p);
    if x in p {
      var i := IndexOf(p, x);
      WithoutAt(p, i);
    } else {
      WithoutAbsent(p, x);
    }
  }

  /** Filtering a duplicate-free list keeps the relative order of what remains. */
  lemma {:induction false} WithoutInOrder<T>(s: seq<T>, x: T)
    requires NoDup(s)
    ensures InOrderOf(Without(s, x), s)
  {
    if s == [] {
    } else {
      var t := s[1..];
      NoDupTail(s);
      WithoutInOrder(t, x);
      InOrderCons(s, Without(t, x));
    }
  }

  /** The entries of `s` not in `seen`, each once, in the order a `Set` built from `s`
      (after `seen`) would iterate them. */
  function DistinctFrom<T(==)>(s: seq<T>, seen: set<T>): (r: seq<T>)
    ensures forall x :: x in r ==> x in s && x !in seen
    ensures forall x :: x in s && x !in seen ==> x in r
  {
    if s == [] then []
    else if s[0] in seen then DistinctFrom(s[1..], seen)
    else [s[0]] + DistinctFrom(s[1..], seen + {s[0]})
  }

  /** `[...new Set(s)]`. */
  function Distinct<T(==)>(s: seq<T>): (r: seq<T>)
    ensures forall x :: x in r ==> x in s
    ensures forall x :: x in s ==> x in r
    ensures InOrderOf(r, s) && NoDup(r)
  {
    DistinctFromInOrder(s, {});
    InOrderNoDup(DistinctFrom(s, {}), s);
    DistinctFrom(s, {})
  }

  /** The kept entries follow the order of their first occurrence in `s`. */
  lemma {:induction false} DistinctFromInOrder<T>(s: seq<T>, seen: set<T>)
    ensures InOrderOf(DistinctFrom(s, seen), s)
  {
    if s != [] {
      if s[0] in seen {
        var t := DistinctFrom(s[1..], seen);
        DistinctFromInOrder(s[1..], seen);
        InOrderCons(s, t);
      } else {
        var t := DistinctFrom(s[1..], seen + {s[0]});
        DistinctFromInOrder(s[1..], seen + {s[0]});
        InOrderCons(s, t);
      }
    }
  }

  /** Dropping `x` before deduplicating is deduplicating with `x` already seen. */
  lemma {:induction false} DistinctFromWithout<T>(s: seq<T>, x: T, seen: set<T>)
    ensures DistinctFrom(Without(s, x), seen) == DistinctFrom(s, seen + {x})
  {
    if s != [] {
      if s[0] == x {
        DistinctFromWithout(s[1..], x, seen);
      } else {
        var w := Without(s[1..], x);
        assert Without(s, x) == [s[0]] + w;
        assert ([s[0]] + w)[1..] == w;
        if s[0] in seen {
          DistinctFromWithout(s[1..], x, seen);
        } else {
          DistinctFromWithout(s[1..], x, seen + {s[0]});
          assert seen + {s[0]} + {x} == seen + {x} + {s[0]};
        }
      }
    }
  }

  /** Filtering `x` out of a deduplicated list is deduplicating with `x` already seen. */
  lemma {:induction false} WithoutDistinctFrom<T>(s: seq<T>, seen: set<T>, x: T)
    ensures Without(DistinctFrom(s, seen), x) == DistinctFrom(s, seen + {x})
  {
    if s != [] {
      if s[0] in seen {
        WithoutDistinctFrom(s[1..], seen, x);
      } else if s[0] == x {
        WithoutDistinctFrom(s[1..], seen + {x}, x);
        assert seen + {x} + {x} == seen + {x};
      } else {
        WithoutDistinctFrom(s[1..], seen + {s[0]}, x);
        assert seen + {s[0]} + {x} == seen + {x} + {s[0]};
      }
    }
  }

  /** Deduplicating `[x] + s` keeps `x` in front and drops every later copy of it. */
  lemma DistinctCons<T>(x: T, s: seq<T>)
    ensures Distinct([x] + s) == [x] + Without(Distinct(s), x)
  {
    assert ([x] + s)[1..] == s;
    WithoutDistinctFrom(s, {}, x);
    assert {} + {x} == {x};
  }

  /** Reversal, stated by where each element lands. */
  function Reverse<T>(s: seq<T>): (r: seq<T>)
    ensures |r| == |s|
    ensures forall i :: 0 <= i < |s| ==> r[i] == s[|s| - 1 - i]
  {
    if s == [] then [] else [s[|s| - 1]] + Reverse(s[..|s| - 1])
  }
}
