/**
 * `links.sort(key=natural_sort_key)`. Python's list sort takes the key function as an
 * argument and is stable, so the sorted list is determined by the keys alone. The model
 * is an insertion sort by a key function that puts each element after every element whose
 * key is not greater; any other stable sort gives the same list (`StableSortUnique`).
 * The sort is stated for any key function whose keys alternate strings and integers
 * the way natural keys do, and `SortLinks` applies it to `NaturalSortKey`.
 */
module NaturalSort {
  import opened Seqs
  import opened Text
  import opened NaturalKey

  /** Every key the function produces has strings at even and integers at odd positions. */
  ghost predicate WellKeyed(key: string -> Key) {
    forall x :: Aligned(key(x), 0)
  }

  /** `key(x) < key(y)` in Python's list order. */
  predicate KeyLess(key: string -> Key, x: string, y: string) {
    Less(key(x), key(y))
  }

  /** Non-decreasing by key: no later element is smaller than an earlier one. */
  predicate SortedBy(key: string -> Key, s: seq<string>) {
    forall i, j :: 0 <= i < j < |s| ==> !KeyLess(key, s[j], s[i])
  }

  lemma KeyLessTrans(key: string -> Key, x: string, y: string, z: string)
    requires WellKeyed(key)
    requires KeyLess(key, x, y) && KeyLess(key, y, z)
    ensures KeyLess(key, x, z)
  {
    LessTrans(key(x), key(y), key(z), 0);
  }

  lemma KeyLessAsym(key: string -> Key, x: string, y: string)
    ensures KeyLess(key, x, y) ==> !KeyLess(key, y, x)
  {
    LessAsym(key(x), key(y));
  }

  lemma KeyLessTotal(key: string -> Key, x: string, y: string)
    requires WellKeyed(key)
    ensures KeyLess(key, x, y) || key(x) == key(y) || KeyLess(key, y, x)
  {
    LessTotal(key(x), key(y), 0);
  }

  /** Put `x` into `s` before the first element with a greater key, after all the others. */
  function Insert(key: string -> Key, x: string, s: seq<string>): seq<string> {
    if s == [] then [x]
    else if KeyLess(key, x, s[0]) then [x] + s
    else [s[0]] + Insert(key, x, s[1..])
  }

  /** `s.sort(key=key)`: insert the elements one by one, in their original order. */
  function SortBy(key: string -> Key, s: seq<string>): seq<string> {
    if s == [] then [] else Insert(key, s[|s| - 1], SortBy(key, s[..|s| - 1]))
  }

  lemma {:induction false} InsertPermutation(key: string -> Key, x: string, s: seq<string>)
    ensures multiset(Insert(key, x, s)) == multiset(s) + multiset{x}
  {
    if s != [] && !KeyLess(key, x, s[0]) {
      InsertPermutation(key, x, s[1..]);
      assert s == [s[0]] + s[1..];
    }
  }

  /** Sorting rearranges the elements and neither adds nor drops any. */
  lemma {:induction false} SortByPermutation(key: string -> Key, s: seq<string>)
    ensures multiset(SortBy(key, s)) == multiset(s)
  {
    if s != [] {
      SortByPermutation(key, s[..|s| - 1]);
      InsertPermutation(key, s[|s| - 1], SortBy(key, s[..|s| - 1]));
      assert s == s[..|s| - 1] + [s[|s| - 1]];
    }
  }

  lemma {:induction false} InsertSorted(key: string -> Key, x: string, s: seq<string>)
    requires WellKeyed(key) && SortedBy(key, s)
    ensures SortedBy(key, Insert(key, x, s))
  {
    if s != [] {
      if KeyLess(key, x, s[0]) {
        InsertSortedFront(key, x, s);
      } else {
        InsertSorted(key, x, s[1..]);
        InsertSortedBehind(key, x, s);
      }
    }
  }

  /** Helper for InsertSorted: an element smaller than the head goes in front. */
  lemma InsertSortedFront(key: string -> Key, x: string, s: seq<string>)
    requires WellKeyed(key) && SortedBy(key, s) && s != [] && KeyLess(key, x, s[0])
    ensures SortedBy(key, [x] + s)
  {
    forall j | 0 <= j < |s|
      ensures !KeyLess(key, s[j], x)
    {
      KeyLessAsym(key, x, s[0]);
      if KeyLess(key, s[j], x) {
        KeyLessTrans(key, s[j], x, s[0]);
      }
    }
    assert forall j :: 1 <= j < |[x] + s| ==> ([x] + s)[j] == s[j - 1];
  }

  /** No element of `s` has a key below the key of `h`. */
  predicate NotBelow(key: string -> Key, s: seq<string>, h: string) {
    forall i :: 0 <= i < |s| ==> !KeyLess(key, s[i], h)
  }

  lemma {:induction false} InsertNotBelow(key: string -> Key, x: string, s: seq<string>, h: string)
    requires NotBelow(key, s, h) && !KeyLess(key, x, h)
    ensures NotBelow(key, Insert(key, x, s), h)
  {
    if s != [] && !KeyLess(key, x, s[0]) {
      InsertNotBelow(key, x, s[1..], h);
      var t := Insert(key, x, s[1..]);
      assert forall i :: 1 <= i < |[s[0]] + t| ==> ([s[0]] + t)[i] == t[i - 1];
    } else if s != [] {
      assert forall i :: 1 <= i < |[x] + s| ==> ([x] + s)[i] == s[i - 1];
    }
  }

  /** Helper for InsertSorted: the head stays in front of a sorted insertion into the tail. */
  lemma InsertSortedBehind(key: string -> Key, x: string, s: seq<string>)
    requires SortedBy(key, s) && s != [] && !KeyLess(key, x, s[0])
    requires SortedBy(key, Insert(key, x, s[1..]))
    ensures SortedBy(key, [s[0]] + Insert(key, x, s[1..]))
  {
    var t := Insert(key, x, s[1..]);
    assert NotBelow(key, s[1..], s[0]);
    InsertNotBelow(key, x, s[1..], s[0]);
    var r := [s[0]] + t;
    forall i, j | 0 <= i < j < |r|
      ensures !KeyLess(key, r[j], r[i])
    {
      assert r[j] == t[j - 1];
      if i > 0 {
        assert r[i] == t[i - 1];
      }
    }
  }

  /** The sorted list is non-decreasing by key. */
  lemma {:induction false} SortBySorted(key: string -> Key, s: seq<string>)
    requires WellKeyed(key)
    ensures SortedBy(key, SortBy(key, s))
  {
    if s != [] {
      SortBySorted(key, s[..|s| - 1]);
      InsertSorted(key, s[|s| - 1], SortBy(key, s[..|s| - 1]));
    }
  }

  /** The elements of `s` whose key is `k`, in their order in `s`. */
  function WithKey(key: string -> Key, s: seq<string>, k: Key): (r: seq<string>)
    ensures |r| <= |s|
  {
    if s == [] then [] else (if key(s[0]) == k then [s[0]] else []) + WithKey(key, s[1..], k)
  }

  lemma WithKeyCons(key: string -> Key, x: string, s: seq<string>, k: Key)
    ensures WithKey(key, [x] + s, k) == (if key(x) == k then [x] else []) + WithKey(key, s, k)
  {
    assert ([x] + s)[0] == x && ([x] + s)[1..] == s;
  }

  lemma WithKeySingle(key: string -> Key, x: string, k: Key)
    ensures WithKey(key, [x], k) == if key(x) == k then [x] else []
  {
    assert [x][1..] == [];
  }

  lemma {:induction false} WithKeyAppend(key: string -> Key, a: seq<string>, b: seq<string>, k: Key)
    ensures WithKey(key, a + b, k) == WithKey(key, a, k) + WithKey(key, b, k)
  {
    if a == [] {
      assert a + b == b;
    } else {
      var h := if key(a[0]) == k then [a[0]] else [];
      assert (a + b)[0] == a[0];
      assert (a + b)[1..] == a[1..] + b;
      WithKeyAppend(key, a[1..], b, k);
      assert WithKey(key, a + b, k) == h + (WithKey(key, a[1..], k) + WithKey(key, b, k));
      AppendAssoc(h, WithKey(key, a[1..], k), WithKey(key, b, k));
    }
  }

  lemma {:induction false} WithKeyNone(key: string -> Key, s: seq<string>, k: Key)
    requires forall i :: 0 <= i < |s| ==> key(s[i]) != k
    ensures WithKey(key, s, k) == []
  {
    if s != [] {
      WithKeyNone(key, s[1..], k);
    }
  }

  /** An element lies in the group of its own key. */
  lemma {:induction false} WithKeyHas(key: string -> Key, s: seq<string>, x: string)
    requires x in s
    ensures x in WithKey(key, s, key(x))
  {
    if s[0] != x {
      WithKeyHas(key, s[1..], x);
    }
  }

  /** Every element of a group lies in the list. */
  lemma {:induction false} WithKeyIn(key: string -> Key, s: seq<string>, k: Key, x: string)
    requires x in WithKey(key, s, k)
    ensures x in s && key(x) == k
  {
    if s != [] && !(s[0] == x && key(x) == k) {
      WithKeyIn(key, s[1..], k, x);
    }
  }

  lemma {:induction false} InsertStable(key: string -> Key, x: string, s: seq<string>, k: Key)
    requires SortedBy(key, s)
    ensures WithKey(key, Insert(key, x, s), k) == WithKey(key, s, k) + (if key(x) == k then [x] else [])
  {
    if s == [] {
      WithKeySingle(key, x, k);
    } else if KeyLess(key, x, s[0]) {
      WithKeyCons(key, x, s, k);
      if key(x) == k {
        NoneBelowHead(key, x, s);
        WithKeyNone(key, s, k);
      }
    } else {
      InsertStable(key, x, s[1..], k);
      InsertStableBehind(key, x, s, k);
    }
  }

  /** Helper for InsertStable: inserting behind the head keeps the head's place in its group. */
  lemma InsertStableBehind(key: string -> Key, x: string, s: seq<string>, k: Key)
    requires s != [] && !KeyLess(key, x, s[0])
    requires WithKey(key, Insert(key, x, s[1..]), k) == WithKey(key, s[1..], k) + (if key(x) == k then [x] else [])
    ensures WithKey(key, Insert(key, x, s), k) == WithKey(key, s, k) + (if key(x) == k then [x] else [])
  {
    var h := if key(s[0]) == k then [s[0]] else [];
    var l := if key(x) == k then [x] else [];
    var t := Insert(key, x, s[1..]);
    var w := WithKey(key, s[1..], k);
    assert Insert(key, x, s) == [s[0]] + t;
    WithKeyCons(key, s[0], t, k);
    assert WithKey(key, [s[0]] + t, k) == h + (w + l);
    WithKeyCons(key, s[0], s[1..], k);
    assert s == [s[0]] + s[1..];
    assert WithKey(key, s, k) == h + w;
    AppendAssoc(h, w, l);
  }

  /** Helper for InsertStable: nothing in a sorted list above `x` has the key of `x`. */
  lemma NoneBelowHead(key: string -> Key, x: string, s: seq<string>)
    requires SortedBy(key, s) && s != [] && KeyLess(key, x, s[0])
    ensures forall i :: 0 <= i < |s| ==> key(s[i]) != key(x)
  {
    forall i | 0 <= i < |s|
      ensures key(s[i]) != key(x)
    {
      KeyLessAsym(key, s[i], s[0]);
    }
  }

  /** Stability: for every key, the elements with that key keep their relative order. */
  lemma {:induction false} SortByStable(key: string -> Key, s: seq<string>, k: Key)
    requires WellKeyed(key)
    ensures WithKey(key, SortBy(key, s), k) == WithKey(key, s, k)
  {
    if s != [] {
      var init, last := s[..|s| - 1], s[|s| - 1];
      SortBySorted(key, init);
      SortByStable(key, init, k);
      SortByStableStep(key, s, k);
    }
  }

  /** Helper for SortByStable: inserting the last element extends its group at the end. */
  lemma SortByStableStep(key: string -> Key, s: seq<string>, k: Key)
    requires s != [] && SortedBy(key, SortBy(key, s[..|s| - 1]))
    requires WithKey(key, SortBy(key, s[..|s| - 1]), k) == WithKey(key, s[..|s| - 1], k)
    ensures WithKey(key, SortBy(key, s), k) == WithKey(key, s, k)
  {
    var init, last := s[..|s| - 1], s[|s| - 1];
    var sorted := SortBy(key, init);
    assert SortBy(key, s) == Insert(key, last, sorted);
    InsertStable(key, last, sorted, k);
    assert s == init + [last];
    WithKeyAppend(key, init, [last], k);
    WithKeySingle(key, last, k);
  }

  /** Helper for SortedGroupsEqual: the heads of two such lists have equal keys. */
  lemma HeadKeysEqual(key: string -> Key, r: seq<string>, q: seq<string>)
    requires WellKeyed(key) && SortedBy(key, r) && SortedBy(key, q) && r != [] && q != []
    requires WithKey(key, r, key(q[0])) == WithKey(key, q, key(q[0]))
    requires WithKey(key, r, key(r[0])) == WithKey(key, q, key(r[0]))
    ensures key(r[0]) == key(q[0])
  {
    var a, b := r[0], q[0];
    WithKeyHas(key, r, a);
    WithKeyIn(key, q, key(a), a);
    WithKeyHas(key, q, b);
    WithKeyIn(key, r, key(b), b);
    var j :| 0 <= j < |q| && q[j] == a;
    var i :| 0 <= i < |r| && r[i] == b;
    KeyLessAsym(key, a, a);
    assert !KeyLess(key, a, b) by {
      if j > 0 {
        assert !KeyLess(key, q[j], q[0]);
      }
    }
    assert !KeyLess(key, b, a) by {
      if i > 0 {
        assert !KeyLess(key, r[i], r[0]);
      }
    }
    KeyLessTotal(key, a, b);
  }

  /** Helper for SortedGroupsEqual: two groups that agree and start alike agree on the tails. */
  lemma TailGroupsEqual(key: string -> Key, r: seq<string>, q: seq<string>, k: Key)
    requires r != [] && q != [] && r[0] == q[0]
    requires WithKey(key, r, k) == WithKey(key, q, k)
    ensures WithKey(key, r[1..], k) == WithKey(key, q[1..], k)
  {
    var h := if key(r[0]) == k then [r[0]] else [];
    WithKeyCons(key, r[0], r[1..], k);
    WithKeyCons(key, q[0], q[1..], k);
    assert r == [r[0]] + r[1..] && q == [q[0]] + q[1..];
    var x, y := WithKey(key, r[1..], k), WithKey(key, q[1..], k);
    assert h + x == h + y;
    assert x == (h + x)[|h|..];
    assert y == (h + y)[|h|..];
  }

  /** Helper for SortedGroupsEqual: the head of a list is the head of its key's group. */
  lemma HeadOfGroup(key: string -> Key, r: seq<string>)
    requires r != []
    ensures WithKey(key, r, key(r[0])) == [r[0]] + WithKey(key, r[1..], key(r[0]))
  {
    WithKeyCons(key, r[0], r[1..], key(r[0]));
    assert r == [r[0]] + r[1..];
  }

  /** Two sorted lists with the same elements of every key, in the same order, are equal. */
  lemma {:induction false} SortedGroupsEqual(key: string -> Key, r: seq<string>, q: seq<string>)
    requires WellKeyed(key) && SortedBy(key, r) && SortedBy(key, q)
    requires forall k :: WithKey(key, r, k) == WithKey(key, q, k)
    ensures r == q
    decreases |r|
  {
    if r == [] {
      if q != [] {
        HeadOfGroup(key, q);
      }
    } else if q == [] {
      HeadOfGroup(key, r);
    } else {
      HeadKeysEqual(key, r, q);
      HeadOfGroup(key, r);
      HeadOfGroup(key, q);
      var g := WithKey(key, r, key(r[0]));
      assert g == WithKey(key, q, key(q[0]));
      assert g[0] == r[0] && g[0] == q[0];
      forall k
        ensures WithKey(key, r[1..], k) == WithKey(key, q[1..], k)
      {
        TailGroupsEqual(key, r, q, k);
      }
      SortedGroupsEqual(key, r[1..], q[1..]);
      assert r == [r[0]] + r[1..] && q == [q[0]] + q[1..];
    }
  }

  /**
   * Any sorted list that holds, for every key, the same elements in the same order as the
   * input is the insertion sort's result: every stable sort by the key agrees with it.
   */
  lemma StableSortUnique(key: string -> Key, s: seq<string>, r: seq<string>)
    requires WellKeyed(key) && SortedBy(key, r)
    requires forall k :: WithKey(key, r, k) == WithKey(key, s, k)
    ensures r == SortBy(key, s)
  {
    SortBySorted(key, s);
    forall k
      ensures WithKey(key, r, k) == WithKey(key, SortBy(key, s), k)
    {
      SortByStable(key, s, k);
    }
    SortedGroupsEqual(key, r, SortBy(key, s));
  }

  /** `links.sort(key=natural_sort_key)`. */
  function SortLinks(links: seq<string>): seq<string> {
    SortBy(NaturalSortKey, links)
  }

  lemma NaturalSortKeyWellKeyed()
    ensures WellKeyed(NaturalSortKey)
  {
    forall x
      ensures Aligned(NaturalSortKey(x), 0)
    {
      NaturalSortKeyShape(x);
    }
  }

  /**
   * The sorted chapter links are a permutation of the collected ones, non-decreasing by
   * natural key, and stable: links with equal keys keep their collected order.
   */
  lemma SortLinksSpec(links: seq<string>)
    ensures multiset(SortLinks(links)) == multiset(links) && |SortLinks(links)| == |links|
    ensures SortedBy(NaturalSortKey, SortLinks(links))
    ensures forall k :: WithKey(NaturalSortKey, SortLinks(links), k) == WithKey(NaturalSortKey, links, k)
  {
    NaturalSortKeyWellKeyed();
    SortBySorted(NaturalSortKey, links);
    SortByPermutation(NaturalSortKey, links);
    assert |SortLinks(links)| == |multiset(SortLinks(links))|;
    forall k
      ensures WithKey(NaturalSortKey, SortLinks(links), k) == WithKey(NaturalSortKey, links, k)
    {
      SortByStable(NaturalSortKey, links, k);
    }
  }

  /** Sorting `s` plus a last element smaller than everything sorted so far puts it first. */
  lemma SortBySmallestLast(key: string -> Key, s: seq<string>, x: string)
    requires SortBy(key, s) != [] && KeyLess(key, x, SortBy(key, s)[0])
    ensures SortBy(key, s + [x]) == [x] + SortBy(key, s)
  {
    assert (s + [x])[..|s|] == s;
  }

  /** Three elements whose keys strictly decrease come out reversed. */
  lemma SortThreeDescending(key: string -> Key, x: string, y: string, z: string)
    requires KeyLess(key, y, x) && KeyLess(key, z, y)
    ensures SortBy(key, [x, y, z]) == [z, y, x]
  {
    assert SortBy(key, [x]) == [x] by {
      assert [x][..0] == [];
    }
    SortBySmallestLast(key, [x], y);
    assert [x] + [y] == [x, y];
    SortBySmallestLast(key, [x, y], z);
    assert [x, y] + [z] == [x, y, z];
  }

  lemma KeyOrderExample()
    ensures KeyLess(NaturalSortKey, "c2", "c10") && KeyLess(NaturalSortKey, "c1", "c2")
  {
    DigitRunOrder("c", "2", "10", "");
    DigitRunOrder("c", "1", "2", "");
    assert "c" + "2" + "" == "c2" && "c" + "10" + "" == "c10" && "c" + "1" + "" == "c1";
    assert DecimalValue("10") == 10 by {
      assert "10"[..1] == "1";
    }
  }

  /** The ordering example: "c10", "c2", "c1" sort to "c1", "c2", "c10". */
  lemma SortExample()
    ensures SortLinks(["c10", "c2", "c1"]) == ["c1", "c2", "c10"]
  {
    KeyOrderExample();
    SortThreeDescending(NaturalSortKey, "c10", "c2", "c1");
  }
}
