/** Sequence operations the component performs on its cell lists: filtering,
    `List<T>.Remove` (remove the first equal element) and removing every element
    of a pending-removal list in turn. */
module Seqs {

  /** The elements of `s` that satisfy `p`, in their original order. */
  ghost function Filter<T>(s: seq<T>, p: iset<T>): seq<T>
  {
    if s == [] then []
    else if s[0] in p then [s[0]] + Filter(s[1..], p)
    else Filter(s[1..], p)
  }

  /** An element is kept exactly when it occurs in `s` and satisfies `p`. */
  lemma {:induction false} FilterMembers<T(!new)>(s: seq<T>, p: iset<T>)
    ensures forall x :: x in Filter(s, p) <==> x in s && x in p
  {
    if s != [] {
      FilterMembers(s[1..], p);
      assert s == [s[0]] + s[1..];
    }
  }

  /** Filtering keeps every occurrence of a selected element and none of the others. */
  lemma {:induction false} FilterCount<T(!new)>(s: seq<T>, p: iset<T>, x: T)
    ensures multiset(Filter(s, p))[x] == if x in p then multiset(s)[x] else 0
  {
    if s != [] {
      assert s == [s[0]] + s[1..];
      FilterCount(s[1..], p, x);
    }
  }

  /** `List<T>.Remove(x)`: drops the first element equal to `x`, if any. */
  function RemoveFirst<T(==)>(s: seq<T>, x: T): seq<T>
  {
    if s == [] then []
    else if s[0] == x then s[1..]
    else [s[0]] + RemoveFirst(s[1..], x)
  }

  /** `Remove` takes away one occurrence of `x` when there is one, and otherwise
      leaves the list as it was. */
  lemma {:induction false} RemoveFirstCount<T>(s: seq<T>, x: T)
    ensures x in s ==> multiset(RemoveFirst(s, x)) + multiset{x} == multiset(s)
    ensures x !in s ==> RemoveFirst(s, x) == s
  {
    if s != [] {
      assert s == [s[0]] + s[1..];
      RemoveFirstCount(s[1..], x);
    }
  }

  /** `foreach (var x in xs) list.Remove(x);` */
  function RemoveAll<T(==)>(s: seq<T>, xs: seq<T>): seq<T>
    decreases |xs|
  {
    if xs == [] then s else RemoveAll(RemoveFirst(s, xs[0]), xs[1..])
  }

  /** The removal loop takes away one occurrence of each listed element that is
      still there, and nothing else. */
  lemma {:induction false} RemoveAllCount<T>(s: seq<T>, xs: seq<T>)
    ensures multiset(RemoveAll(s, xs)) == multiset(s) - multiset(xs)
    decreases |xs|
  {
    if xs != [] {
      var x, rest := xs[0], xs[1..];
      var t := RemoveFirst(s, x);
      assert multiset(t) == multiset(s) - multiset{x} by {
        RemoveFirstCount(s, x);
      }
      assert multiset(xs) == multiset{x} + multiset(rest) by {
        assert xs == [x] + rest;
      }
      RemoveAllCount(t, rest);
    }
  }

  lemma {:induction false} FilterConcat<T(!new)>(a: seq<T>, b: seq<T>, p: iset<T>)
    ensures Filter(a + b, p) == Filter(a, p) + Filter(b, p)
  {
    if a != [] {
      var head := if a[0] in p then [a[0]] else [];
      assert (a + b)[0] == a[0] && (a + b)[1..] == a[1..] + b;
      FilterConcat(a[1..], b, p);
      calc {
        Filter(a + b, p);
        head + Filter(a[1..] + b, p);
        head + (Filter(a[1..], p) + Filter(b, p));
        (head + Filter(a[1..], p)) + Filter(b, p);
        Filter(a, p) + Filter(b, p);
      }
    } else {
      assert a + b == b;
    }
  }

  /** Concatenation is associative. */
  lemma AppendAssoc<T>(a: seq<T>, b: seq<T>, c: seq<T>)
    ensures (a + b) + c == a + (b + c)
  {
  }

  /** A prefix one element longer. */
  lemma PrefixSnoc<T>(s: seq<T>, k: nat)
    requires k < |s|
    ensures s[..k + 1] == s[..k] + [s[k]]
  {
  }

  /** Filtering a list with one more element at the end. */
  lemma FilterSnoc<T(!new)>(s: seq<T>, x: T, p: iset<T>)
    ensures Filter(s + [x], p) == if x in p then Filter(s, p) + [x] else Filter(s, p)
  {
    FilterConcat(s, [x], p);
    assert Filter([x], p) == if x in p then [x] else [];
  }

  /** Filtering by a predicate every element already satisfies changes nothing. */
  lemma {:induction false} FilterAll<T(!new)>(s: seq<T>, p: iset<T>)
    requires forall x | x in s :: x in p
    ensures Filter(s, p) == s
  {
    if s != [] {
      FilterAll(s[1..], p);
    }
  }

  /** Filtering by a predicate no element satisfies leaves nothing. */
  lemma {:induction false} FilterNone<T(!new)>(s: seq<T>, p: iset<T>)
    requires forall x | x in s :: x !in p
    ensures Filter(s, p) == []
  {
    if s != [] {
      FilterNone(s[1..], p);
    }
  }

  /** Two predicates that agree on the elements of `s` select the same elements. */
  lemma {:induction false} FilterSame<T(!new)>(s: seq<T>, p: iset<T>, q: iset<T>)
    requires forall x | x in s :: (x in p) == (x in q)
    ensures Filter(s, p) == Filter(s, q)
  {
    if s != [] {
      FilterSame(s[1..], p, q);
    }
  }

  /** Removing the elements of `xs`, none equal to `h`, never touches a leading `h`. */
  lemma {:induction false} RemoveAllSkips<T>(h: T, t: seq<T>, xs: seq<T>)
    requires h !in xs
    ensures RemoveAll([h] + t, xs) == [h] + RemoveAll(t, xs)
    decreases |xs|
  {
    if xs != [] {
      assert RemoveFirst([h] + t, xs[0]) == [h] + RemoveFirst(t, xs[0]) by {
        assert ([h] + t)[1..] == t;
      }
      RemoveAllSkips(h, RemoveFirst(t, xs[0]), xs[1..]);
    }
  }

  /** Filtering a list that starts with `h`. */
  lemma FilterCons<T(!new)>(h: T, s: seq<T>, p: iset<T>)
    ensures Filter([h] + s, p) == (if h in p then [h] else []) + Filter(s, p)
  {
    assert ([h] + s)[1..] == s;
  }

  /** Removing a list that starts with `h`: first `h`, then the rest. */
  lemma RemoveAllCons<T>(s: seq<T>, h: T, xs: seq<T>)
    ensures RemoveAll(s, [h] + xs) == RemoveAll(RemoveFirst(s, h), xs)
  {
    assert ([h] + xs)[1..] == xs;
  }

  /** `Remove(h)` on a list that starts with `h` drops that first element. */
  lemma RemoveFirstHead<T>(h: T, s: seq<T>)
    ensures RemoveFirst([h] + s, h) == s
  {
    assert ([h] + s)[1..] == s;
  }

  /** Collecting the elements of `s` that satisfy `q` and then removing each of them
      one by one from `s + t` (the pending-removal pattern of the component) keeps
      exactly the elements of `s` that satisfy the complementary predicate `p`, in
      order, followed by `t` untouched, provided every element of `t` satisfies `p`.
      The selection depends only on the value, so each `Remove` hits the first
      selected element. */
  lemma {:induction false} RemoveSelected<T(!new)>(s: seq<T>, t: seq<T>, p: iset<T>, q: iset<T>)
    requires forall x :: x in q <==> x !in p
    requires forall x | x in t :: x in p
    ensures RemoveAll(s + t, Filter(s, q)) == Filter(s, p) + t
  {
    if s == [] {
      assert s + t == t;
    } else {
      var h, s' := s[0], s[1..];
      var rest := Filter(s', q);
      var kept := Filter(s', p);
      assert s == [h] + s';
      assert s + t == [h] + (s' + t);
      FilterCons(h, s', q);
      FilterCons(h, s', p);
      RemoveSelected(s', t, p, q);
      assert RemoveAll(s' + t, rest) == kept + t;
      if h in q {
        assert Filter(s, q) == [h] + rest;
        assert [] + kept == kept;
        RemoveAllCons(s + t, h, rest);
        RemoveFirstHead(h, s' + t);
        assert RemoveFirst(s + t, h) == s' + t;
      } else {
        assert [] + rest == rest;
        assert Filter(s, p) == [h] + kept;
        FilterMembers(s', q);
        RemoveAllSkips(h, s' + t, rest);
        assert ([h] + kept) + t == [h] + (kept + t);
      }
    }
  }

  /** Removing one by one every element of `s` that satisfies `q` keeps exactly
      the others, in order. */
  lemma RemoveLeavers<T(!new)>(s: seq<T>, p: iset<T>, q: iset<T>)
    requires forall x :: x in q <==> x !in p
    ensures RemoveAll(s, Filter(s, q)) == Filter(s, p)
  {
    RemoveSelected(s, [], p, q);
    assert s + [] == s;
    assert Filter(s, p) + [] == Filter(s, p);
  }

}
