/** Lists used as insertion-ordered sets: the header list that `fetch_data` grows
    with `if column_name not in self.headers: self.headers.append(column_name)`, and
    the key order of a Python `dict` built from a list that may repeat keys. */
module OrderedSet {

  predicate NoDup(s: seq<string>) {
    forall i, j :: 0 <= i < j < |s| ==> s[i] != s[j]
  }

  /** The first occurrence of every element of `s`, in the order of those first
      occurrences: an element is kept exactly when it does not occur earlier in `s`. */
  function Firsts(s: seq<string>): (r: seq<string>)
    ensures NoDup(r)
    ensures forall x :: x in r <==> x in s
    ensures |r| <= |s|
    decreases |s|
  {
    if |s| == 0 then
      []
    else
      var p := Firsts(s[..|s| - 1]);
      var x := s[|s| - 1];
      assert forall y :: y in s <==> y in s[..|s| - 1] || y == x by {
        assert s == s[..|s| - 1] + [x];
      }
      if x in s[..|s| - 1] then p else p + [x]
  }

  /** A list without duplicates is its own set of first occurrences. */
  lemma {:induction false} FirstsOfNoDup(s: seq<string>)
    requires NoDup(s)
    ensures Firsts(s) == s
    decreases |s|
  {
    if |s| > 0 {
      var p := s[..|s| - 1];
      FirstsOfNoDup(p);
      assert s[|s| - 1] !in p;
      assert s == p + [s[|s| - 1]];
    }
  }

  /** One step of the header scan: append `x` unless it is already listed. */
  function AppendIfAbsent(s: seq<string>, x: string): (r: seq<string>)
    ensures x in r
    ensures forall y :: y in r <==> y in s || y == x
    ensures |s| <= |r| && r[..|s|] == s
    ensures NoDup(s) ==> NoDup(r)
  {
    if x in s then s else s + [x]
  }

  /** The header scan over a whole list of names, left to right. */
  function AppendAll(s: seq<string>, xs: seq<string>): seq<string>
    decreases |xs|
  {
    if |xs| == 0 then s else AppendIfAbsent(AppendAll(s, xs[..|xs| - 1]), xs[|xs| - 1])
  }

  /** The scan lists exactly the elements of `s` and of `xs`, keeps `s` as a prefix and
      adds no duplicates. */
  lemma {:induction false} AppendAllMembers(s: seq<string>, xs: seq<string>)
    ensures forall y :: y in AppendAll(s, xs) <==> y in s || y in xs
    ensures |s| <= |AppendAll(s, xs)| && AppendAll(s, xs)[..|s|] == s
    ensures NoDup(s) ==> NoDup(AppendAll(s, xs))
    decreases |xs|
  {
    if |xs| > 0 {
      var p := xs[..|xs| - 1];
      AppendAllMembers(s, p);
      assert xs == p + [xs[|xs| - 1]];
      var q := AppendAll(s, p);
      assert AppendAll(s, xs)[..|q|] == q;
      assert AppendAll(s, xs)[..|s|] == q[..|s|];
    }
  }

  /** Scanning `xs` into a duplicate-free list `s` yields exactly the first
      occurrences of `s + xs`: existing entries stay in place and every new name is
      listed once, at its first discovery. */
  lemma {:induction false} AppendAllIsFirsts(s: seq<string>, xs: seq<string>)
    requires NoDup(s)
    ensures AppendAll(s, xs) == Firsts(s + xs)
    decreases |xs|
  {
    if |xs| == 0 {
      FirstsOfNoDup(s);
      assert s + xs == s;
    } else {
      var p := xs[..|xs| - 1];
      AppendAllIsFirsts(s, p);
      assert (s + xs)[..|s + xs| - 1] == s + p;
    }
  }

  /** Scanning two lists one after the other is scanning their concatenation. */
  lemma {:induction false} AppendAllConcat(s: seq<string>, xs: seq<string>, ys: seq<string>)
    ensures AppendAll(AppendAll(s, xs), ys) == AppendAll(s, xs + ys)
    decreases |ys|
  {
    if |ys| == 0 {
      assert xs + ys == xs;
    } else {
      AppendAllConcat(s, xs, ys[..|ys| - 1]);
      assert (xs + ys)[..|xs + ys| - 1] == xs + ys[..|ys| - 1];
    }
  }

  /** Two lists without duplicates that are permutations of each other. */
  lemma NoDupPermutation(a: seq<string>, b: seq<string>)
    requires NoDup(b) && multiset(a) == multiset(b)
    ensures NoDup(a)
  {
    forall i, j | 0 <= i < j < |a|
      ensures a[i] != a[j]
    {
      if a[i] == a[j] {
        var x := a[i];
        assert a == a[..i] + [x] + a[i + 1..j] + [x] + a[j + 1..];
        assert multiset(a)[x] >= 2;
        CountAtMostOne(b, x);
      }
    }
  }

  lemma {:induction false} CountAtMostOne(b: seq<string>, x: string)
    requires NoDup(b)
    ensures multiset(b)[x] <= 1
    decreases |b|
  {
    if |b| > 0 {
      var p := b[..|b| - 1];
      CountAtMostOne(p, x);
      assert b == p + [b[|b| - 1]];
      if b[|b| - 1] == x {
        assert x !in p;
      }
    }
  }
}
