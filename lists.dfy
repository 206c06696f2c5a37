/** The List<T> and LINQ operations the registry and the routers use, on sequences. */
module Lists {

  predicate NoDup<T(==)>(xs: seq<T>) {
    forall i, j :: 0 <= i < j < |xs| ==> xs[i] != xs[j]
  }

  function Count<T(==)>(xs: seq<T>, x: T): nat {
    if xs == [] then 0 else (if xs[0] == x then 1 else 0) + Count(xs[1..], x)
  }

  /** List<T>.Remove(x): drops the first occurrence, if any. */
  function RemoveFirst<T(==)>(xs: seq<T>, x: T): seq<T> {
    if xs == [] then []
    else if xs[0] == x then xs[1..]
    else [xs[0]] + RemoveFirst(xs[1..], x)
  }

  /** Enumerable.Except(first, second): the distinct elements of first that are not in
      second, in the order of their first occurrence. */
  function Except<T(==)>(first: seq<T>, second: seq<T>): seq<T> {
    ExceptSet(first, set y | y in second)
  }

  function ExceptSet<T(==)>(xs: seq<T>, banned: set<T>): seq<T> {
    if xs == [] then []
    else if xs[0] in banned then ExceptSet(xs[1..], banned)
    else [xs[0]] + ExceptSet(xs[1..], banned + {xs[0]})
  }

  /** Enumerable.SelectMany / repeated List.AddRange. */
  function Flatten<T(==)>(xss: seq<seq<T>>): seq<T> {
    if xss == [] then [] else Flatten(xss[..|xss| - 1]) + xss[|xss| - 1]
  }

  lemma {:induction false} CountAppend<T>(xs: seq<T>, ys: seq<T>, x: T)
    ensures Count(xs + ys, x) == Count(xs, x) + Count(ys, x)
  {
    if xs == [] {
      assert xs + ys == ys;
    } else {
      assert (xs + ys)[1..] == xs[1..] + ys;
      CountAppend(xs[1..], ys, x);
    }
  }

  lemma {:induction false} CountMembership<T>(xs: seq<T>, x: T)
    ensures Count(xs, x) > 0 <==> x in xs
  {
    if xs != [] {
      CountMembership(xs[1..], x);
      assert x in xs <==> xs[0] == x || x in xs[1..];
    }
  }

  /** In a sequence without duplicates every member occurs exactly once. */
  lemma {:induction false} CountNoDup<T>(xs: seq<T>, x: T)
    requires NoDup(xs)
    ensures Count(xs, x) == if x in xs then 1 else 0
  {
    if xs != [] {
      CountNoDup(xs[1..], x);
      CountMembership(xs[1..], x);
      assert xs[0] !in xs[1..];
    }
  }

  /** The members of the LINQ difference, both directions. */
  lemma {:induction false} ExceptSetMembers<T>(xs: seq<T>, banned: set<T>, x: T)
    ensures x in ExceptSet(xs, banned) <==> x in xs && x !in banned
  {
    if xs != [] {
      if xs[0] in banned {
        ExceptSetMembers(xs[1..], banned, x);
      } else {
        ExceptSetMembers(xs[1..], banned + {xs[0]}, x);
      }
    }
  }

  lemma {:induction false} ExceptSetNoDup<T>(xs: seq<T>, banned: set<T>)
    ensures NoDup(ExceptSet(xs, banned))
    ensures forall x :: x in ExceptSet(xs, banned) ==> x !in banned
  {
    if xs != [] {
      if xs[0] in banned {
        ExceptSetNoDup(xs[1..], banned);
      } else {
        var b' := banned + {xs[0]};
        ExceptSetNoDup(xs[1..], b');
        assert xs[0] !in ExceptSet(xs[1..], b');
      }
    }
  }

  /** Except keeps exactly the members of first that are not in second, each once. */
  lemma ExceptMembers<T>(first: seq<T>, second: seq<T>, x: T)
    ensures x in Except(first, second) <==> x in first && x !in second
    ensures NoDup(Except(first, second))
  {
    ExceptSetMembers(first, (set y | y in second), x);
    ExceptSetNoDup(first, (set y | y in second));
  }

  /** List.Remove takes away exactly one occurrence of a present element. */
  lemma {:induction false} RemoveFirstCount<T>(xs: seq<T>, x: T, y: T)
    ensures Count(RemoveFirst(xs, x), y) == if y == x && x in xs then Count(xs, y) - 1 else Count(xs, y)
  {
    if xs != [] {
      RemoveFirstCount(xs[1..], x, y);
      CountMembership(xs[1..], x);
      if xs[0] != x {
        assert RemoveFirst(xs, x)[1..] == RemoveFirst(xs[1..], x);
      }
    }
  }

  lemma {:induction false} RemoveFirstMembers<T>(xs: seq<T>, x: T, y: T)
    ensures y in RemoveFirst(xs, x) <==> Count(RemoveFirst(xs, x), y) > 0
    ensures y != x ==> (y in RemoveFirst(xs, x) <==> y in xs)
  {
    CountMembership(RemoveFirst(xs, x), y);
    CountMembership(xs, y);
    RemoveFirstCount(xs, x, y);
  }

  lemma {:induction false} RemoveFirstNoDup<T>(xs: seq<T>, x: T)
    requires NoDup(xs)
    ensures NoDup(RemoveFirst(xs, x))
    ensures x !in RemoveFirst(xs, x)
    ensures forall y :: y != x ==> (y in RemoveFirst(xs, x) <==> y in xs)
  {
    forall y ensures Count(RemoveFirst(xs, x), y) <= 1 && (y == x ==> Count(RemoveFirst(xs, x), y) == 0) {
      RemoveFirstCount(xs, x, y);
      CountNoDup(xs, y);
    }
    forall y | y != x ensures y in RemoveFirst(xs, x) <==> y in xs {
      RemoveFirstMembers(xs, x, y);
    }
    CountMembership(RemoveFirst(xs, x), x);
    CountAtMostOneIsNoDup(RemoveFirst(xs, x));
  }

  lemma {:induction false} CountAtMostOneIsNoDup<T>(xs: seq<T>)
    requires forall y :: Count(xs, y) <= 1
    ensures NoDup(xs)
  {
    if xs != [] {
      forall y ensures Count(xs[1..], y) <= 1 {
        assert Count(xs, y) == (if xs[0] == y then 1 else 0) + Count(xs[1..], y);
      }
      CountAtMostOneIsNoDup(xs[1..]);
      assert Count(xs, xs[0]) == 1 + Count(xs[1..], xs[0]);
      CountMembership(xs[1..], xs[0]);
      forall i, j | 0 <= i < j < |xs| ensures xs[i] != xs[j] {
        if i == 0 {
          assert xs[j] == xs[1..][j - 1];
        } else {
          assert xs[i] == xs[1..][i - 1] && xs[j] == xs[1..][j - 1];
        }
      }
    }
  }

  /** Removing an element just appended to a list it was absent from gives the list back. */
  lemma {:induction false} RemoveFirstAppendAbsent<T>(xs: seq<T>, x: T)
    requires x !in xs
    ensures RemoveFirst(xs + [x], x) == xs
  {
    if xs == [] {
      assert [] + [x] == [x];
    } else {
      assert (xs + [x])[1..] == xs[1..] + [x];
      RemoveFirstAppendAbsent(xs[1..], x);
    }
  }

  /** A duplicate-free list stays duplicate-free when an absent element is appended. */
  lemma AppendAbsentNoDup<T>(xs: seq<T>, x: T)
    requires NoDup(xs) && x !in xs
    ensures NoDup(xs + [x])
  {
    forall i, j | 0 <= i < j < |xs + [x]| ensures (xs + [x])[i] != (xs + [x])[j] {
      if j == |xs| {
        assert (xs + [x])[i] == xs[i];
      }
    }
  }

  /** Concatenation is associative. */
  lemma AppendAssoc<T>(a: seq<T>, b: seq<T>, c: seq<T>)
    ensures (a + b) + c == a + (b + c)
  {
  }

  /** Taking the whole of a sequence gives the sequence. */
  lemma TakeAll<T>(s: seq<T>)
    ensures s[..|s|] == s
  {
  }

  /** Adding a fresh key and taking it out again gives back the map. */
  lemma UpdateThenSubtract<K, V>(m: map<K, V>, k: K, v: V)
    requires k !in m
    ensures m[k := v] - {k} == m
  {
    assert (m[k := v] - {k}).Keys == m.Keys;
  }

  /** Appending one more chunk appends its contents (MemoryStream.Write at the end). */
  lemma FlattenSnoc<T>(xss: seq<seq<T>>, xs: seq<T>)
    ensures Flatten(xss + [xs]) == Flatten(xss) + xs
  {
    assert (xss + [xs])[..|xss|] == xss;
  }
}
