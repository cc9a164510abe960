/** The two LINQ operators the select-list helpers use, on sequences:
    `OrderBy` with a string key, and `Select`. The string comparer `OrderBy`
    consults (the current culture's) is a parameter: any total preorder. */
module Linq {

  /** `leq` is total and transitive: what `OrderBy` needs of its comparer. */
  ghost predicate TotalPreorder(leq: (string, string) -> bool) {
    && (forall a, b :: leq(a, b) || leq(b, a))
    && (forall a, b, c :: leq(a, b) && leq(b, c) ==> leq(a, c))
  }

  /** The keys of `s` are in `leq` order. */
  ghost predicate SortedBy<T>(s: seq<T>, key: T -> string, leq: (string, string) -> bool) {
    forall i, j :: 0 <= i < j < |s| ==> leq(key(s[i]), key(s[j]))
  }

  /** Every element of `s` has a key at least `k`. */
  ghost predicate AllAbove<T>(k: string, s: seq<T>, key: T -> string, leq: (string, string) -> bool) {
    forall j :: 0 <= j < |s| ==> leq(k, key(s[j]))
  }

  /** Puts `x` before the first element whose key is not below its own. */
  function Insert<T>(x: T, s: seq<T>, key: T -> string, leq: (string, string) -> bool): (r: seq<T>)
    requires TotalPreorder(leq)
    requires SortedBy(s, key, leq)
    ensures multiset(r) == multiset(s) + multiset{x}
    ensures SortedBy(r, key, leq)
  {
    if s == [] || leq(key(x), key(s[0])) then
      InsertFront(x, s, key, leq);
      [x] + s
    else
      assert s == [s[0]] + s[1..];
      var rest := Insert(x, s[1..], key, leq);
      InsertBehind(s[0], x, s[1..], rest, key, leq);
      [s[0]] + rest
  }

  /** An element not above the first of a sorted sequence may go in front. */
  lemma InsertFront<T>(x: T, s: seq<T>, key: T -> string, leq: (string, string) -> bool)
    requires TotalPreorder(leq) && SortedBy(s, key, leq)
    requires s == [] || leq(key(x), key(s[0]))
    ensures SortedBy([x] + s, key, leq)
  {
    forall i, j | 0 <= i < j < |[x] + s| ensures leq(key(([x] + s)[i]), key(([x] + s)[j])) {
      if i == 0 && j > 1 {
        assert leq(key(s[0]), key(s[j - 1]));
      }
    }
  }

  /** An element above the first stays behind it: the first element followed
      by the insertion into the rest is sorted and holds one more `x`. */
  lemma InsertBehind<T>(first: T, x: T, tail: seq<T>, rest: seq<T>, key: T -> string, leq: (string, string) -> bool)
    requires TotalPreorder(leq) && SortedBy([first] + tail, key, leq)
    requires !leq(key(x), key(first))
    requires multiset(rest) == multiset(tail) + multiset{x} && SortedBy(rest, key, leq)
    ensures SortedBy([first] + rest, key, leq)
    ensures multiset([first] + rest) == multiset([first] + tail) + multiset{x}
  {
    assert AllAbove(key(first), tail, key, leq) by {
      forall j | 0 <= j < |tail| ensures leq(key(first), key(tail[j])) {
        assert ([first] + tail)[0] == first && ([first] + tail)[j + 1] == tail[j];
      }
    }
    AboveOfAddition(key(first), x, tail, rest, key, leq);
    forall i, j | 0 <= i < j < |[first] + rest| ensures leq(key(([first] + rest)[i]), key(([first] + rest)[j])) {
      if i == 0 {
        assert ([first] + rest)[j] == rest[j - 1];
      } else {
        assert ([first] + rest)[i] == rest[i - 1] && ([first] + rest)[j] == rest[j - 1];
      }
    }
  }

  /** Adding to a bag one element above `k` keeps every element above `k`. */
  lemma AboveOfAddition<T>(k: string, x: T, s: seq<T>, r: seq<T>, key: T -> string, leq: (string, string) -> bool)
    requires multiset(r) == multiset(s) + multiset{x}
    requires AllAbove(k, s, key, leq) && leq(k, key(x))
    ensures AllAbove(k, r, key, leq)
  {
    forall j | 0 <= j < |r| ensures leq(k, key(r[j])) {
      assert r[j] in multiset(r);
      if r[j] != x {
        assert r[j] in multiset(s);
        var i :| 0 <= i < |s| && s[i] == r[j];
      }
    }
  }

  /** `OrderBy(key)`: a stable sort of `s` by `key` under `leq`. */
  function OrderBy<T>(s: seq<T>, key: T -> string, leq: (string, string) -> bool): (r: seq<T>)
    requires TotalPreorder(leq)
    ensures multiset(r) == multiset(s)
    ensures SortedBy(r, key, leq)
  {
    if s == [] then []
    else
      assert s == [s[0]] + s[1..];
      Insert(s[0], OrderBy(s[1..], key, leq), key, leq)
  }

  /** `Select(f)`: `f` applied to every element, in order. */
  function Select<T, U>(s: seq<T>, f: T -> U): (r: seq<U>)
    ensures |r| == |s|
    ensures forall i :: 0 <= i < |s| ==> r[i] == f(s[i])
  {
    if s == [] then [] else [f(s[0])] + Select(s[1..], f)
  }

  /** `Where(p)`: the elements satisfying `p`, in order. */
  function Where<T>(s: seq<T>, p: T -> bool): (r: seq<T>)
    ensures |r| <= |s|
    ensures forall k :: 0 <= k < |r| ==> r[k] in s && p(r[k])
    ensures forall k :: 0 <= k < |s| && p(s[k]) ==> s[k] in r
  {
    if s == [] then []
    else
      assert s == [s[0]] + s[1..];
      (if p(s[0]) then [s[0]] else []) + Where(s[1..], p)
  }

  /** An element that passes the test survives `Where`. */
  lemma WhereKeeps<T>(s: seq<T>, p: T -> bool, x: T)
    requires x in s && p(x)
    ensures x in Where(s, p)
  {
    var i :| 0 <= i < |s| && s[i] == x;
  }

  /** Filtering a concatenation filters each half and keeps their order. */
  lemma {:induction false} WhereAppend<T>(a: seq<T>, b: seq<T>, p: T -> bool)
    ensures Where(a + b, p) == Where(a, p) + Where(b, p)
  {
    if a != [] {
      assert (a + b)[0] == a[0] && (a + b)[1..] == a[1..] + b;
      WhereAppend(a[1..], b, p);
      var head := if p(a[0]) then [a[0]] else [];
      calc {
        Where(a + b, p);
        head + Where(a[1..] + b, p);
        head + (Where(a[1..], p) + Where(b, p));
        (head + Where(a[1..], p)) + Where(b, p);
      }
    } else {
      assert a + b == b;
    }
  }

  /** Mapping commutes with rearrangement: permuted inputs give permuted outputs. */
  lemma {:induction false} SelectPermutation<T, U>(s: seq<T>, t: seq<T>, f: T -> U)
    requires multiset(s) == multiset(t)
    ensures multiset(Select(s, f)) == multiset(Select(t, f))
  {
    if s != [] {
      assert s[0] in multiset(t);
      var j :| 0 <= j < |t| && t[j] == s[0];
      var t' := t[..j] + t[j + 1..];
      RemoveAt(t, j);
      assert s == [s[0]] + s[1..];
      assert multiset(s[1..]) == multiset(s) - multiset{s[0]};
      SelectPermutation(s[1..], t', f);
      SelectRemoveAt(t, j, f);
    }
  }

  /** `t` is what precedes index `j`, the element there, and what follows. */
  lemma AroundIndex<T>(t: seq<T>, j: nat)
    requires j < |t|
    ensures t == t[..j] + ([t[j]] + t[j + 1..])
  {
  }

  lemma RemoveAt<T>(t: seq<T>, j: nat)
    requires j < |t|
    ensures multiset(t[..j] + t[j + 1..]) == multiset(t) - multiset{t[j]}
  {
    assert t == t[..j] + [t[j]] + t[j + 1..];
  }

  lemma SelectRemoveAt<T, U>(t: seq<T>, j: nat, f: T -> U)
    requires j < |t|
    ensures multiset(Select(t, f)) == multiset{f(t[j])} + multiset(Select(t[..j] + t[j + 1..], f))
  {
    var left, right := t[..j], t[j + 1..];
    AroundIndex(t, j);
    SelectAppend(left, [t[j]] + right, f);
    SelectAppend([t[j]], right, f);
    SelectAppend(left, right, f);
    var sl, sr := Select(left, f), Select(right, f);
    assert Select([t[j]], f) == [f(t[j])];
    assert Select(t, f) == sl + ([f(t[j])] + sr);
    MultisetAround(sl, f(t[j]), sr);
  }

  lemma MultisetAround<T>(a: seq<T>, x: T, b: seq<T>)
    ensures multiset(a + ([x] + b)) == multiset{x} + multiset(a + b)
  {
  }

  lemma {:induction false} SelectAppend<T, U>(a: seq<T>, b: seq<T>, f: T -> U)
    ensures Select(a + b, f) == Select(a, f) + Select(b, f)
  {
    if a != [] {
      assert (a + b)[1..] == a[1..] + b;
      SelectAppend(a[1..], b, f);
    }
  }
}
