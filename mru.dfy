/** The most-recently-used list as a value: what one `updateMostRecentlyUsed` call
    makes of the list (`Touch`), what a run of them makes of it (`TouchAll`), and the
    invariants those keep. The class in module SwitchRecent is proved against these. */
module Mru {
  import opened Sequences

  /** Capacity of the list. */
  const MAX_RECENT_FILES: nat := 100

  /** The first `n` entries (`array.length = n` when the array is longer). */
  function Truncate<T>(s: seq<T>, n: nat): (r: seq<T>)
    ensures |r| == if |s| <= n then |s| else n
    ensures r <= s
  {
    if |s| <= n then s else s[..n]
  }

  /** The list after touching `p`: a falsy (empty) path changes nothing; otherwise `p`
      moves to the front, or enters there, and the list is cut to capacity. On a
      duplicate-free list this is one `updateMostRecentlyUsed` call; on a list with
      several copies of `p` it drops all of them, where `splice` drops the first. */
  function Touch(s: seq<string>, p: string): (r: seq<string>)
    ensures p == "" ==> r == s
    ensures p != "" ==> 0 < |r| <= MAX_RECENT_FILES && r[0] == p && p !in r[1..]
    ensures forall x :: x in r ==> x == p || x in s
  {
    if p == "" then s
    else
      var r := Truncate([p] + Without(s, p), MAX_RECENT_FILES);
      assert forall x :: x in r[1..] ==> x in Without(s, p);
      r
  }

  /** The list after touching each of `ps` in turn: every entry was listed before or
      touched, and a valid list stays within capacity and duplicate-free. */
  function TouchAll(s: seq<string>, ps: seq<string>): (r: seq<string>)
    ensures forall x :: x in r ==> x in s || x in ps
    ensures NoDup(s) && |s| <= MAX_RECENT_FILES ==> NoDup(r) && |r| <= MAX_RECENT_FILES
  {
    if ps == [] then s
    else
      var t, p := TouchAll(s, ps[..|ps| - 1]), ps[|ps| - 1];
      assert forall x :: x in ps[..|ps| - 1] ==> x in ps;
      if NoDup(t) && |t| <= MAX_RECENT_FILES then
        TouchShape(t, p);
        Touch(t, p)
      else
        Touch(t, p)
  }

  /** The list stays within capacity and duplicate-free; apart from `p` in front, the
      entries that remain come from the old list in their old relative order. */
  lemma TouchShape(s: seq<string>, p: string)
    requires NoDup(s) && |s| <= MAX_RECENT_FILES
    ensures |Touch(s, p)| <= MAX_RECENT_FILES
    ensures NoDup(Touch(s, p))
    ensures p != "" ==> InOrderOf(Touch(s, p)[1..], s)
  {
    if p != "" {
      var w := Without(s, p);
      var r := Touch(s, p);
      WithoutInOrder(s, p);
      InOrderNoDup(w, s);
      assert r[1..] == w[..|r| - 1];
      InOrderPrefix(w, s, |r| - 1);
      forall i, j | 0 <= i < j < |r| ensures r[i] != r[j] {
        if i > 0 {
          assert r[i] == w[i - 1] && r[j] == w[j - 1];
        } else {
          assert r[j] in r[1..];
        }
      }
    }
  }

  /** Below capacity, or when `p` is already listed, nothing but the old copy of `p`
      is lost: the new list is `p` followed by every other old entry, in order. */
  lemma TouchLosesNothing(s: seq<string>, p: string)
    requires NoDup(s) && |s| <= MAX_RECENT_FILES && p != ""
    requires |s| < MAX_RECENT_FILES || p in s
    ensures Touch(s, p) == [p] + Without(s, p)
    ensures |Touch(s, p)| == if p in s then |s| else |s| + 1
    ensures forall x :: x in s ==> x in Touch(s, p)
  {
    if p in s {
      var i := IndexOf(s, p);
      WithoutAt(s, i);
      assert |Without(s, p)| == |s| - 1;
    } else {
      WithoutAbsent(s, p);
    }
  }

  /** At capacity, a new path evicts exactly the oldest entry, the last one. */
  lemma TouchEvictsOldest(s: seq<string>, p: string)
    requires |s| == MAX_RECENT_FILES && p != "" && p !in s
    ensures Touch(s, p) == [p] + s[..MAX_RECENT_FILES - 1]
    ensures NoDup(s) ==> s[MAX_RECENT_FILES - 1] !in Touch(s, p)
    ensures forall i :: 0 <= i < MAX_RECENT_FILES - 1 ==> s[i] in Touch(s, p)
  {
    WithoutAbsent(s, p);
    var head := s[..MAX_RECENT_FILES - 1];
    assert ([p] + s)[..MAX_RECENT_FILES] == [p] + head;
    var r := [p] + head;
    forall i | 0 <= i < MAX_RECENT_FILES - 1 ensures s[i] in r {
      assert r[i + 1] == s[i];
    }
    if NoDup(s) {
      forall k | 0 <= k < |r| ensures r[k] != s[MAX_RECENT_FILES - 1] {
        if k > 0 {
          assert r[k] == s[k - 1];
        }
      }
    }
  }

  /** Touching the same path twice in a row is the same as touching it once. */
  lemma TouchIdempotent(s: seq<string>, p: string)
    ensures Touch(Touch(s, p), p) == Touch(s, p)
  {
    if p != "" {
      var r := Touch(s, p);
      assert r == [p] + r[1..];
      WithoutAbsent(r[1..], p);
      assert Without(r, p) == r[1..];
    }
  }

  /** Seeding an empty list with distinct non-empty paths leaves them newest first:
      the reverse of the input, cut to capacity. */
  lemma {:induction false} TouchAllDistinct(ps: seq<string>)
    requires NoDup(ps) && "" !in ps
    ensures TouchAll([], ps) == Truncate(Reverse(ps), MAX_RECENT_FILES)
  {
    if ps != [] {
      var q, x := ps[..|ps| - 1], ps[|ps| - 1];
      assert NoDup(q);
      TouchAllDistinct(q);
      var t := TouchAll([], q);
      assert x !in t by {
        assert forall i :: 0 <= i < |q| ==> q[i] != x;
        assert forall y :: y in t ==> y in Reverse(q);
      }
      WithoutAbsent(t, x);
      assert [x] + Reverse(q) == Reverse(ps);
      if |Reverse(q)| > MAX_RECENT_FILES {
        assert ([x] + t)[..MAX_RECENT_FILES] == Reverse(ps)[..MAX_RECENT_FILES];
      }
    }
  }

  /** Cutting the list before filtering `x` out and putting `x` in front gives the same
      capped list as cutting afterwards. */
  lemma TruncateWithout(d: seq<string>, x: string)
    requires NoDup(d)
    ensures Truncate([x] + Without(Truncate(d, MAX_RECENT_FILES), x), MAX_RECENT_FILES)
         == Truncate([x] + Without(d, x), MAX_RECENT_FILES)
  {
    if |d| > MAX_RECENT_FILES {
      var w, p := Without(d, x), Without(d[..MAX_RECENT_FILES], x);
      WithoutPrefix(d, x, MAX_RECENT_FILES);
      WithoutPrefixLength(d, x, MAX_RECENT_FILES);
      assert p == w[..|p|];
      assert ([x] + p)[..MAX_RECENT_FILES] == [x] + w[..MAX_RECENT_FILES - 1];
      assert ([x] + w)[..MAX_RECENT_FILES] == [x] + w[..MAX_RECENT_FILES - 1];
    }
  }

  /** Whatever the sequence of touches, starting from an empty list the list holds
      exactly the `MAX_RECENT_FILES` most recently touched distinct paths, newest
      first: each path once, at its latest touch. */
  lemma {:induction false} TouchAllRecency(ps: seq<string>)
    requires "" !in ps
    ensures TouchAll([], ps) == Truncate(Distinct(Reverse(ps)), MAX_RECENT_FILES)
  {
    if ps != [] {
      var q, x := ps[..|ps| - 1], ps[|ps| - 1];
      assert "" !in q && x != "";
      TouchAllRecency(q);
      var d := Distinct(Reverse(q));
      DistinctFromInOrder(Reverse(q), {});
      InOrderNoDup(d, Reverse(q));
      TruncateWithout(d, x);
      DistinctCons(x, Reverse(q));
      assert [x] + Reverse(q) == Reverse(ps);
    }
  }

  /** Touching more than capacity distinct paths keeps only the newest ones: the list
      is full and none of the first `|ps| - MAX_RECENT_FILES` touched paths remains. */
  lemma TouchAllOverflow(ps: seq<string>)
    requires NoDup(ps) && "" !in ps && |ps| > MAX_RECENT_FILES
    ensures |TouchAll([], ps)| == MAX_RECENT_FILES
    ensures forall i :: 0 <= i < |ps| - MAX_RECENT_FILES ==> ps[i] !in TouchAll([], ps)
  {
    TouchAllDistinct(ps);
    var r := TouchAll([], ps);
    forall i | 0 <= i < |ps| - MAX_RECENT_FILES ensures ps[i] !in r {
      forall k | 0 <= k < |r| ensures r[k] != ps[i] {
        assert r[k] == ps[|ps| - 1 - k];
      }
    }
  }
}
