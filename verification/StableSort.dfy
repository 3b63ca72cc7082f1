/**
  Stable sorting by a key: the contract of Rust's `slice::sort_by`, which the path
  ranking and the endpoint ranking both rely on.

  A result is pinned down by two facts: it is sorted, and for every key the elements
  with that key appear in their input order. `StablySortedUnique` shows that nothing
  else meets them, so the choice of sorting algorithm is immaterial.
*/
module StableSort {

  // A totally ordered key: a real extended with both infinities.
  datatype Key = NegInf | Fin(value: real) | PosInf

  predicate Leq(a: Key, b: Key) {
    a.NegInf? || b.PosInf? || (a.Fin? && b.Fin? && a.value <= b.value)
  }

  ghost predicate Sorted<T>(s: seq<T>, key: T -> Key) {
    forall i, j :: 0 <= i < j < |s| ==> Leq(key(s[i]), key(s[j]))
  }

  // The elements of `s` whose key is `k`, in order.
  ghost function WithKey<T>(s: seq<T>, key: T -> Key, k: Key): seq<T> {
    if s == [] then []
    else (if key(s[0]) == k then [s[0]] else []) + WithKey(s[1..], key, k)
  }

  ghost predicate StablySorted<T>(input: seq<T>, key: T -> Key, output: seq<T>) {
    && Sorted(output, key)
    && forall k :: WithKey(output, key, k) == WithKey(input, key, k)
  }

  function Insert<T>(s: seq<T>, key: T -> Key, x: T): seq<T> {
    if s == [] then [x]
    else if Leq(key(s[0]), key(x)) then [s[0]] + Insert(s[1..], key, x)
    else [x] + s
  }

  lemma {:induction false} WithKeyConcat<T>(s: seq<T>, t: seq<T>, key: T -> Key, k: Key)
    ensures WithKey(s + t, key, k) == WithKey(s, key, k) + WithKey(t, key, k)
  {
    if s == [] {
      assert s + t == t;
    } else {
      assert (s + t)[0] == s[0] && (s + t)[1..] == s[1..] + t;
      WithKeyConcat(s[1..], t, key, k);
      var head := if key(s[0]) == k then [s[0]] else [];
      ConcatAssoc(head, WithKey(s[1..], key, k), WithKey(t, key, k));
    }
  }

  lemma {:induction false} WithKeyAbsent<T>(s: seq<T>, key: T -> Key, k: Key)
    requires forall i :: 0 <= i < |s| ==> key(s[i]) != k
    ensures WithKey(s, key, k) == []
  {
    if s != [] {
      assert forall i :: 0 <= i < |s[1..]| ==> s[1..][i] == s[i + 1];
      WithKeyAbsent(s[1..], key, k);
    }
  }

  // Every occurrence of an element survives in the list of its own key.
  lemma {:induction false} WithKeyCount<T>(s: seq<T>, key: T -> Key, x: T)
    ensures multiset(WithKey(s, key, key(x)))[x] == multiset(s)[x]
  {
    if s != [] {
      WithKeyCount(s[1..], key, x);
      var head := if key(s[0]) == key(x) then [s[0]] else [];
      assert s == [s[0]] + s[1..];
      assert multiset(WithKey(s, key, key(x)))
          == multiset(head) + multiset(WithKey(s[1..], key, key(x)));
    }
  }

  lemma {:induction false} InsertMembers<T>(s: seq<T>, key: T -> Key, x: T)
    ensures |Insert(s, key, x)| == |s| + 1
    ensures forall y :: y in Insert(s, key, x) ==> y == x || y in s
  {
    if s != [] && Leq(key(s[0]), key(x)) {
      InsertMembers(s[1..], key, x);
    }
  }

  lemma {:induction false} InsertSorted<T>(s: seq<T>, key: T -> Key, x: T)
    requires Sorted(s, key)
    ensures Sorted(Insert(s, key, x), key)
  {
    if s != [] && Leq(key(s[0]), key(x)) {
      assert Sorted(s[1..], key);
      InsertSorted(s[1..], key, x);
      InsertMembers(s[1..], key, x);
      var r := Insert(s[1..], key, x);
      forall j | 0 <= j < |r| ensures Leq(key(s[0]), key(r[j])) {
        assert r[j] in r;
      }
    }
  }

  lemma {:induction false} InsertStable<T>(s: seq<T>, key: T -> Key, x: T, k: Key)
    requires Sorted(s, key)
    ensures WithKey(Insert(s, key, x), key, k) == WithKey(s, key, k) + WithKey([x], key, k)
  {
    hide WithKey;
    if s == [] {
      WithKeyAbsent(s, key, k);
    } else if Leq(key(s[0]), key(x)) {
      InsertStable(s[1..], key, x, k);
      WithKeyConcat([s[0]], Insert(s[1..], key, x), key, k);
      WithKeyConcat([s[0]], s[1..], key, k);
      assert s == [s[0]] + s[1..];
      ConcatAssoc(WithKey([s[0]], key, k), WithKey(s[1..], key, k), WithKey([x], key, k));
    } else {
      WithKeyConcat([x], s, key, k);
      assert WithKey([x], key, k) == [] || WithKey(s, key, k) == [] by {
        if key(x) == k {
          WithKeyAbsent(s, key, k);
        } else {
          WithKeyAbsent([x], key, k);
        }
      }
    }
  }

  lemma {:induction false} ConcatAssoc<T>(a: seq<T>, b: seq<T>, c: seq<T>)
    ensures a + (b + c) == a + b + c
  {
  }

  lemma {:induction false} SortStep<T>(done: seq<T>, key: T -> Key, r: seq<T>, x: T)
    requires StablySorted(done, key, r)
    ensures StablySorted(done + [x], key, Insert(r, key, x))
  {
    InsertSorted(r, key, x);
    forall k ensures WithKey(Insert(r, key, x), key, k) == WithKey(done + [x], key, k) {
      InsertStable(r, key, x, k);
      WithKeyConcat(done, [x], key, k);
    }
  }

  /** The library sort, as an insertion sort. */
  method SortBy<T>(s: seq<T>, key: T -> Key) returns (r: seq<T>)
    ensures StablySorted(s, key, r)
    ensures multiset(r) == multiset(s)
  {
    r := [];
    for i := 0 to |s|
      invariant StablySorted(s[..i], key, r)
    {
      SortStep(s[..i], key, r, s[i]);
      assert s[..i + 1] == s[..i] + [s[i]];
      r := Insert(r, key, s[i]);
    }
    assert s[..|s|] == s;
    StablySortedPermutes(s, key, r);
  }

  lemma {:induction false} StableSortExists<T>(s: seq<T>, key: T -> Key) returns (r: seq<T>)
    ensures StablySorted(s, key, r)
  {
    r := [];
    if s != [] {
      var n := |s| - 1;
      r := StableSortExists(s[..n], key);
      SortStep(s[..n], key, r, s[n]);
      assert s == s[..n] + [s[n]];
      r := Insert(r, key, s[n]);
    }
  }

  lemma {:induction false} StablySortedPermutes<T>(s: seq<T>, key: T -> Key, r: seq<T>)
    requires StablySorted(s, key, r)
    ensures multiset(r) == multiset(s) && |r| == |s|
  {
    forall x: T ensures multiset(r)[x] == multiset(s)[x] {
      WithKeyCount(r, key, x);
      WithKeyCount(s, key, x);
    }
    assert multiset(r) == multiset(s);
    assert |multiset(r)| == |r| && |multiset(s)| == |s|;
  }

  /** A stable sort has exactly one result. */
  lemma {:induction false} StablySortedUnique<T>(r: seq<T>, t: seq<T>, key: T -> Key)
    requires Sorted(r, key) && Sorted(t, key)
    requires forall k :: WithKey(r, key, k) == WithKey(t, key, k)
    ensures r == t
  {
    if r == [] {
      assert t != [] ==> WithKey(t, key, key(t[0])) == WithKey(r, key, key(t[0]));
    } else {
      assert WithKey(t, key, key(r[0])) == WithKey(r, key, key(r[0]));
      HeadKeyLeast(r, t, key);
      HeadKeyLeast(t, r, key);
      var k0 := key(r[0]);
      assert WithKey(r, key, k0)[0] == r[0] && WithKey(t, key, k0)[0] == t[0];
      forall k ensures WithKey(r[1..], key, k) == WithKey(t[1..], key, k) {
        assert WithKey(r, key, k) == WithKey(t, key, k);
        var head := if key(r[0]) == k then [r[0]] else [];
        assert WithKey(r[1..], key, k) == WithKey(r, key, k)[|head|..];
        assert WithKey(t[1..], key, k) == WithKey(t, key, k)[|head|..];
      }
      StablySortedUnique(r[1..], t[1..], key);
      assert r == [r[0]] + r[1..] && t == [t[0]] + t[1..];
    }
  }

  lemma {:induction false} HeadKeyLeast<T>(r: seq<T>, t: seq<T>, key: T -> Key)
    requires r != [] && t != []
    requires Sorted(t, key)
    requires forall k :: WithKey(r, key, k) == WithKey(t, key, k)
    ensures Leq(key(t[0]), key(r[0]))
  {
    if !Leq(key(t[0]), key(r[0])) {
      forall i | 0 <= i < |t| ensures key(t[i]) != key(r[0]) {
        assert i > 0 ==> Leq(key(t[0]), key(t[i]));
      }
      WithKeyAbsent(t, key, key(r[0]));
      assert false;
    }
  }
}
