/** Sequence operations that mirror the JavaScript built-ins the table uses. */
module Seqs {

  /** No element occurs twice. */
  predicate NoDups<T(==)>(s: seq<T>) {
    forall i, j :: 0 <= i < j < |s| ==> s[i] != s[j]
  }

  /** `Array.prototype.indexOf`: the first position of `x` in `s`, or -1 when it is absent. */
  function IndexOf<T(==)>(s: seq<T>, x: T): (r: int)
    ensures -1 <= r < |s|
    ensures r == -1 <==> x !in s
    ensures 0 <= r ==> s[r] == x && forall j :: 0 <= j < r ==> s[j] != x
  {
    if |s| == 0 then -1
    else if s[0] == x then 0
    else
      var r := IndexOf(s[1..], x);
      if r == -1 then -1 else r + 1
  }

  /** The first position of `x` is the one before which `x` does not occur. */
  lemma IndexOfFirst<T>(s: seq<T>, x: T, k: int)
    requires 0 <= k < |s| && s[k] == x
    requires forall j :: 0 <= j < k ==> s[j] != x
    ensures IndexOf(s, x) == k
  {
  }

  /** In a sequence without duplicates each element is found at its own position. */
  lemma IndexOfNoDups<T>(s: seq<T>, i: int)
    requires NoDups(s) && 0 <= i < |s|
    ensures IndexOf(s, s[i]) == i
  {
  }

  /** An element of a prefix is found where the prefix finds it. */
  lemma IndexOfPrefix<T>(s: seq<T>, n: int, x: T)
    requires 0 <= n <= |s| && x in s[..n]
    ensures IndexOf(s, x) == IndexOf(s[..n], x)
  {
    var k := IndexOf(s[..n], x);
    assert forall j :: 0 <= j < k ==> s[j] == s[..n][j];
    IndexOfFirst(s, x, k);
  }

  /** Appending does not move an element that is already present. */
  lemma IndexOfAppend<T>(s: seq<T>, y: T, x: T)
    requires x in s
    ensures IndexOf(s + [y], x) == IndexOf(s, x)
  {
    assert (s + [y])[..|s|] == s;
    IndexOfPrefix(s + [y], |s|, x);
  }

  /** The elements of `s` in the order they first appear, each once: the iteration
      order of `new Set(s)`, which keeps insertion order and ignores repeated inserts. */
  function Dedup<T(==, !new)>(s: seq<T>): (r: seq<T>)
    ensures NoDups(r)
    ensures forall x :: x in r <==> x in s
  {
    if |s| == 0 then []
    else
      var init, last := s[..|s| - 1], s[|s| - 1];
      assert s == init + [last];
      var d := Dedup(init);
      if last in d then d else d + [last]
  }

  /** `t` lists its elements in the order in which they first occur in `s`. */
  predicate InFirstSeenOrder<T(==)>(s: seq<T>, t: seq<T>) {
    forall i, j :: 0 <= i < j < |t| ==> IndexOf(s, t[i]) < IndexOf(s, t[j])
  }

  /** Inserting an element already seen leaves the set's order as it was;
      a new element goes to the end. */
  lemma DedupAppend<T(!new)>(s: seq<T>, x: T)
    ensures Dedup(s + [x]) == if x in s then Dedup(s) else Dedup(s) + [x]
  {
  }

  /** Deduplicating a prefix gives a prefix of the deduplicated whole. */
  lemma {:induction false} DedupPrefix<T(!new)>(s: seq<T>, n: int)
    requires 0 <= n <= |s|
    ensures Dedup(s[..n]) <= Dedup(s)
    decreases |s| - n
  {
    if n < |s| {
      var init := s[..|s| - 1];
      assert init[..n] == s[..n];
      DedupPrefix(init, n);
      var a, b, c := Dedup(s[..n]), Dedup(init), Dedup(s);
      assert a <= b && b <= c;
      assert a == c[..|a|] by {
        assert a == b[..|a|];
        assert b == c[..|b|];
      }
    } else {
      assert s[..n] == s;
    }
  }

  /** First-seen order in a prefix carries over to the whole sequence. */
  lemma FirstSeenOrderExtend<T>(s: seq<T>, n: int, t: seq<T>)
    requires 0 <= n <= |s|
    requires forall x :: x in t ==> x in s[..n]
    requires InFirstSeenOrder(s[..n], t)
    ensures InFirstSeenOrder(s, t)
  {
    forall i | 0 <= i < |t|
      ensures IndexOf(s, t[i]) == IndexOf(s[..n], t[i])
    {
      IndexOfPrefix(s, n, t[i]);
    }
  }

  /** An element first seen at the end may follow the elements seen before it. */
  lemma FirstSeenOrderAppend<T>(s: seq<T>, t: seq<T>, x: T)
    requires InFirstSeenOrder(s, t)
    requires forall y :: y in t ==> 0 <= IndexOf(s, y) < IndexOf(s, x)
    ensures InFirstSeenOrder(s, t + [x])
  {
    var r := t + [x];
    forall i, j | 0 <= i < j < |r|
      ensures IndexOf(s, r[i]) < IndexOf(s, r[j])
    {
      assert r[i] == t[i] && r[i] in t;
      if j < |t| {
        assert r[j] == t[j];
      }
    }
  }

  /** One step of `Dedup`'s order: `d` lists the elements of all but the last element
      of `s` in first-seen order; so does `d` in `s`, and `d` with the last element
      added when it is new. */
  lemma FirstSeenOrderStep<T>(s: seq<T>, d: seq<T>)
    requires |s| > 0
    requires forall x :: x in d <==> x in s[..|s| - 1]
    requires InFirstSeenOrder(s[..|s| - 1], d)
    ensures InFirstSeenOrder(s, d)
    ensures s[|s| - 1] !in d ==> InFirstSeenOrder(s, d + [s[|s| - 1]])
  {
    var init, last := s[..|s| - 1], s[|s| - 1];
    FirstSeenOrderExtend(s, |s| - 1, d);
    if last !in d {
      assert forall j :: 0 <= j < |s| - 1 ==> s[j] == init[j] != last;
      IndexOfFirst(s, last, |s| - 1);
      forall y | y in d
        ensures 0 <= IndexOf(s, y) < |s| - 1
      {
        IndexOfPrefix(s, |s| - 1, y);
      }
      FirstSeenOrderAppend(s, d, last);
    }
  }

  /** `Dedup` lists the distinct elements in first-seen order. */
  lemma {:induction false} DedupFirstSeenOrder<T(!new)>(s: seq<T>)
    ensures InFirstSeenOrder(s, Dedup(s))
  {
    if |s| > 0 {
      DedupFirstSeenOrder(s[..|s| - 1]);
      FirstSeenOrderStep(s, Dedup(s[..|s| - 1]));
    }
  }

  /** A longer prefix is the shorter one and the next element. Kept as a separate step
      because it keeps the proof of `DedupRank` small and steady. */
  lemma TakeOneMore<T>(s: seq<T>, p: int)
    requires 0 <= p < |s|
    ensures s[..p + 1] == s[..p] + [s[p]]
  {
  }

  /** The rank of an element among the distinct ones is the number of distinct
      elements seen before its first occurrence. */
  lemma DedupRank<T(!new)>(s: seq<T>, x: T)
    requires x in s
    ensures IndexOf(Dedup(s), x) == |Dedup(s[..IndexOf(s, x)])|
  {
    var p := IndexOf(s, x);
    var seen := s[..p];
    TakeOneMore(s, p);
    assert forall j :: 0 <= j < p ==> seen[j] == s[j] != x;
    DedupAppend(seen, x);
    var before, upTo := Dedup(seen), Dedup(s[..p + 1]);
    assert upTo == before + [x];
    DedupPrefix(s, p + 1);
    var d := Dedup(s);
    assert d[|before|] == upTo[|before|] == x;
    IndexOfNoDups(d, |before|);
  }

  /** A non-empty sequence holds its first element. Kept as a separate step because
      calling it in the impossible branch of `FirstSeenOrderUnique` closes that branch
      without a checked statement after the contradiction. */
  lemma HeadIn<T>(u: seq<T>)
    requires |u| > 0
    ensures u[0] in u
  {
  }

  /** Dropping the first element keeps first-seen order; the rest comes later than it. */
  lemma TailInFirstSeenOrder<T>(s: seq<T>, t: seq<T>)
    requires |t| > 0 && InFirstSeenOrder(s, t)
    ensures InFirstSeenOrder(s, t[1..])
    ensures forall x :: x in t[1..] <==> x in t && x != t[0]
  {
  }

  /** Two non-empty sequences with the same elements, both in first-seen order, start alike. */
  lemma SameHead<T>(s: seq<T>, t: seq<T>, u: seq<T>)
    requires |t| > 0 && |u| > 0
    requires forall x :: x in t <==> x in u
    requires InFirstSeenOrder(s, t) && InFirstSeenOrder(s, u)
    ensures t[0] == u[0]
  {
    assert t[0] in t;
    var k :| 0 <= k < |u| && u[k] == t[0];
    assert u[0] in u;
    var m :| 0 <= m < |t| && t[m] == u[0];
  }

  /** Two sequences with the same elements, both in first-seen order of `s`, are equal. */
  lemma {:induction false} FirstSeenOrderUnique<T>(s: seq<T>, t: seq<T>, u: seq<T>)
    requires forall x :: x in t <==> x in u
    requires InFirstSeenOrder(s, t) && InFirstSeenOrder(s, u)
    ensures t == u
    decreases |t|
  {
    if |t| == 0 {
      if |u| > 0 {
        HeadIn(u);
        assert false;
      }
    } else {
      HeadIn(t);
      SameHead(s, t, u);
      TailInFirstSeenOrder(s, t);
      TailInFirstSeenOrder(s, u);
      FirstSeenOrderUnique(s, t[1..], u[1..]);
      assert t == [t[0]] + t[1..] && u == [u[0]] + u[1..];
    }
  }

  /** `Dedup` is the only duplicate-free listing of the elements of `s` in first-seen order. */
  lemma DedupUnique<T(!new)>(s: seq<T>, t: seq<T>)
    requires forall x :: x in t <==> x in s
    requires InFirstSeenOrder(s, t)
    ensures t == Dedup(s)
  {
    DedupFirstSeenOrder(s);
    FirstSeenOrderUnique(s, t, Dedup(s));
  }

  /** `s.split(sep)[0]`: the part of `s` before the first `sep`, or all of `s` when it has none. */
  function TakeUntil<T(==)>(s: seq<T>, sep: T): (r: seq<T>)
    ensures r <= s
    ensures sep !in r
    ensures |r| < |s| ==> s[|r|] == sep
  {
    if |s| == 0 then []
    else if s[0] == sep then []
    else [s[0]] + TakeUntil(s[1..], sep)
  }

  /** The three properties of `TakeUntil` determine its result. */
  lemma TakeUntilUnique<T>(s: seq<T>, sep: T, p: seq<T>)
    requires p <= s && sep !in p && (|p| < |s| ==> s[|p|] == sep)
    ensures p == TakeUntil(s, sep)
  {
  }

  /** Splitting `a + [sep] + b` at its first `sep` gives back `a` when `a` has no `sep`. */
  lemma TakeUntilJoin<T>(a: seq<T>, sep: T, b: seq<T>)
    requires sep !in a
    ensures TakeUntil(a + [sep] + b, sep) == a
  {
    TakeUntilUnique(a + [sep] + b, sep, a);
  }

  /** `a` is obtained from `b` by deleting some of its elements, order kept. */
  predicate IsSubsequence<T(==)>(a: seq<T>, b: seq<T>)
    decreases |b|
  {
    |a| <= |b| &&
    (|a| == 0 ||
     (a[0] == b[0] && IsSubsequence(a[1..], b[1..])) ||
     IsSubsequence(a, b[1..]))
  }
}
