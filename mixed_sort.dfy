/**
 * Sorting paths by a key, as Python's stable `sorted(l, key=...)` does, and
 * the one key the script sorts by: the natural key of the path's stem.
 * Python's sort only uses `<`, and `<` on two keys raises TypeError when an
 * integer meets a string. The sort is modelled as a stable insertion sort,
 * defined when every two keys of the list are comparable; the script's sort
 * reports a failure otherwise.
 */
module MixedSort {
  import opened Wrappers
  import opened Paths
  import opened NaturalKey
  import opened KeyOrder

  type KeyFn = string -> seq<Token>

  /** The key the script sorts a path by: the natural key of its stem. */
  function KeyOf(p: string): seq<Token>
  {
    Key(StemName(p))
  }

  /** Every two paths of the list have keys that Python can compare. */
  predicate Comparable(l: seq<string>, key: KeyFn)
  {
    forall i, j :: 0 <= i < |l| && 0 <= j < |l| ==> CompareKeys(key(l[i]), key(l[j])) != Incomparable
  }

  /** `x` can be compared with every path of `s`. */
  predicate ComparableWith(x: string, s: seq<string>, key: KeyFn)
  {
    forall y :: y in s ==> CompareKeys(key(y), key(x)) != Incomparable
  }

  /** Neighbours are in key order (ties allowed). */
  ghost predicate Sorted(l: seq<string>, key: KeyFn)
  {
    forall i, j :: 0 <= i < j < |l| && j == i + 1 ==> KeyLeq(key(l[i]), key(l[j]))
  }

  /** The paths of `l` whose key is `k`, in their order in `l`. A stable sort keeps each of these unchanged. */
  function WithKey(l: seq<string>, key: KeyFn, k: seq<Token>): seq<string>
  {
    if l == [] then [] else (if key(l[0]) == k then [l[0]] else []) + WithKey(l[1..], key, k)
  }

  lemma SortedCons(h: string, t: seq<string>, key: KeyFn)
    requires Sorted(t, key)
    requires t != [] ==> KeyLeq(key(h), key(t[0]))
    ensures Sorted([h] + t, key)
  {
    var l := [h] + t;
    forall i, j | 0 <= i < j < |l| && j == i + 1 ensures KeyLeq(key(l[i]), key(l[j])) {
      if i > 0 {
        assert l[i] == t[i - 1] && l[j] == t[j - 1];
      }
    }
  }

  lemma SortedTail(l: seq<string>, key: KeyFn)
    requires Sorted(l, key) && l != []
    ensures Sorted(l[1..], key)
  {
    var t := l[1..];
    forall i, j | 0 <= i < j < |t| && j == i + 1 ensures KeyLeq(key(t[i]), key(t[j])) {
      assert t[i] == l[i + 1] && t[j] == l[j + 1];
    }
  }

  /**
   * Puts `x` in front of the first path whose key is not smaller than its
   * own, so that `x` stays ahead of the paths it ties with.
   */
  function Insert(x: string, s: seq<string>, key: KeyFn): (r: seq<string>)
    ensures multiset(r) == multiset(s) + multiset{x}
    ensures r[0] == x || (s != [] && r[0] == s[0])
    ensures Sorted(s, key) && ComparableWith(x, s, key) ==> Sorted(r, key)
  {
    if s == [] then [x]
    else if CompareKeys(key(s[0]), key(x)) == Less then
      assert s == [s[0]] + s[1..];
      var t := Insert(x, s[1..], key);
      InsertSorted(x, s, t, key);
      [s[0]] + t
    else
      InsertFront(x, s, key);
      [x] + s
  }

  lemma InsertSorted(x: string, s: seq<string>, t: seq<string>, key: KeyFn)
    requires s != [] && CompareKeys(key(s[0]), key(x)) == Less
    requires t != [] && (t[0] == x || (|s| > 1 && t[0] == s[1]))
    requires Sorted(s[1..], key) && ComparableWith(x, s[1..], key) ==> Sorted(t, key)
    ensures Sorted(s, key) && ComparableWith(x, s, key) ==> Sorted([s[0]] + t, key)
  {
    if Sorted(s, key) && ComparableWith(x, s, key) {
      assert ComparableWith(x, s[1..], key) by {
        forall y | y in s[1..] ensures CompareKeys(key(y), key(x)) != Incomparable {
          assert y in s;
        }
      }
      SortedTail(s, key);
      if t[0] != x {
        assert KeyLeq(key(s[0]), key(s[1]));
      }
      SortedCons(s[0], t, key);
    }
  }

  lemma InsertFront(x: string, s: seq<string>, key: KeyFn)
    requires s != [] && CompareKeys(key(s[0]), key(x)) != Less
    ensures Sorted(s, key) && ComparableWith(x, s, key) ==> Sorted([x] + s, key)
  {
    CompareKeysFlip(key(s[0]), key(x));
    if Sorted(s, key) && ComparableWith(x, s, key) {
      assert s[0] in s;
      SortedCons(x, s, key);
    }
  }

  /** Stable insertion sort by key: each path is inserted ahead of the sorted rest of the list. */
  function Sort(l: seq<string>, key: KeyFn): (r: seq<string>)
    ensures multiset(r) == multiset(l)
    ensures Comparable(l, key) ==> Sorted(r, key)
  {
    if l == [] then []
    else
      var rest := Sort(l[1..], key);
      assert l == [l[0]] + l[1..];
      ComparableTail(l, key);
      ComparableHead(l, rest, key);
      Insert(l[0], rest, key)
  }

  lemma ComparableTail(l: seq<string>, key: KeyFn)
    requires l != []
    ensures Comparable(l, key) ==> Comparable(l[1..], key)
  {
    if Comparable(l, key) {
      var t := l[1..];
      forall i, j | 0 <= i < |t| && 0 <= j < |t| ensures CompareKeys(key(t[i]), key(t[j])) != Incomparable {
        assert t[i] == l[i + 1] && t[j] == l[j + 1];
      }
    }
  }

  lemma ComparableHead(l: seq<string>, rest: seq<string>, key: KeyFn)
    requires l != [] && multiset(rest) == multiset(l[1..])
    ensures Comparable(l, key) ==> ComparableWith(l[0], rest, key)
  {
    if Comparable(l, key) {
      forall y | y in rest ensures CompareKeys(key(y), key(l[0])) != Incomparable {
        assert y in multiset(rest);
        assert y in l[1..];
        var i :| 1 <= i < |l| && l[i] == y;
        assert CompareKeys(key(l[i]), key(l[0])) != Incomparable;
      }
    }
  }

  /**
   * `sorted(l, key=...)` with the stems' natural keys: a permutation of `l`
   * in key order, or the TypeError Python raises on keys it cannot compare.
   */
  function SortedMixedBasename(l: seq<string>): (r: Result<seq<string>>)
    ensures r.Success? <==> Comparable(l, KeyOf)
    ensures r.Success? ==> multiset(r.value) == multiset(l) && Sorted(r.value, KeyOf)
    ensures r.Success? ==> forall k :: WithKey(r.value, KeyOf, k) == WithKey(l, KeyOf, k)
  {
    if Comparable(l, KeyOf) then SortStableAll(l, KeyOf); Success(Sort(l, KeyOf)) else Failure("TypeError: int and str keys")
  }

  /** The sort is stable for every key value at once. */
  lemma SortStableAll(l: seq<string>, key: KeyFn)
    ensures forall k :: WithKey(Sort(l, key), key, k) == WithKey(l, key, k)
  {
    forall k {
      SortStable(l, key, k);
    }
  }

  /** An empty list sorts to itself. */
  lemma SortedMixedBasenameEmpty()
    ensures SortedMixedBasename([]) == Success([])
  {
    SortOne("", KeyOf);
  }

  /** A single path sorts to itself. */
  lemma SortedMixedBasenameOne(x: string)
    ensures SortedMixedBasename([x]) == Success([x])
  {
    SortOne(x, KeyOf);
  }

  lemma SortOne(x: string, key: KeyFn)
    ensures Comparable([], key) && Sort([], key) == []
    ensures Comparable([x], key) && Sort([x], key) == [x]
  {
    assert CompareKeys(key(x), key(x)) == Equal;
    assert [x][1..] == [];
    assert Sort([x], key) == Insert(x, [], key);
  }

  lemma {:induction false} InsertStable(x: string, s: seq<string>, key: KeyFn, k: seq<Token>)
    ensures WithKey(Insert(x, s, key), key, k) == (if key(x) == k then [x] else []) + WithKey(s, key, k)
  {
    if s == [] {
      WithKeyCons(x, [], key, k);
      assert [x] + [] == [x];
    } else if CompareKeys(key(s[0]), key(x)) == Less {
      var t := Insert(x, s[1..], key);
      var rest := WithKey(s[1..], key, k);
      InsertStable(x, s[1..], key, k);
      assert key(s[0]) != key(x) by {
        assert CompareKeys(key(s[0]), key(x)) != Equal;
      }
      WithKeyPast(s[0], x, t, rest, key, k);
      assert Insert(x, s, key) == [s[0]] + t;
      assert WithKey(s, key, k) == (if key(s[0]) == k then [s[0]] else []) + rest;
    } else {
      WithKeyCons(x, s, key, k);
    }
  }

  /** Inserting `x` past a path of another key adds it to that key's paths alone. */
  lemma WithKeyPast(h: string, x: string, t: seq<string>, rest: seq<string>, key: KeyFn, k: seq<Token>)
    requires key(h) != key(x)
    requires WithKey(t, key, k) == (if key(x) == k then [x] else []) + rest
    ensures WithKey([h] + t, key, k) == (if key(x) == k then [x] else []) + ((if key(h) == k then [h] else []) + rest)
  {
    WithKeyCons(h, t, key, k);
    var own, head := if key(x) == k then [x] else [], if key(h) == k then [h] else [];
    assert head == [] || own == [];
    assert head + (own + rest) == own + (head + rest);
  }

  lemma WithKeyCons(h: string, t: seq<string>, key: KeyFn, k: seq<Token>)
    ensures WithKey([h] + t, key, k) == (if key(h) == k then [h] else []) + WithKey(t, key, k)
  {
    var r := [h] + t;
    assert r[0] == h && r[1..] == t;
  }

  /** Stability: the paths sharing any one key come out in the order they went in. */
  lemma {:induction false} SortStable(l: seq<string>, key: KeyFn, k: seq<Token>)
    ensures WithKey(Sort(l, key), key, k) == WithKey(l, key, k)
  {
    if l != [] {
      SortStable(l[1..], key, k);
      InsertStable(l[0], Sort(l[1..], key), key, k);
    }
  }

  /** Neighbour order is enough: in a sorted list every earlier path is KeyLeq every later one. */
  lemma {:induction false} SortedPairwise(l: seq<string>, key: KeyFn, i: nat, j: nat)
    requires Sorted(l, key) && i <= j < |l|
    ensures KeyLeq(key(l[i]), key(l[j]))
    decreases j - i
  {
    if i == j {
      assert CompareKeys(key(l[i]), key(l[j])) == Equal;
    } else {
      SortedPairwise(l, key, i + 1, j);
      assert KeyLeq(key(l[i]), key(l[i + 1]));
      KeyLeqTransitive(key(l[i]), key(l[i + 1]), key(l[j]));
    }
  }

  /** `{dir}/{name}` for every name, in order: what a glob of a directory returns. */
  function Join(dir: string, names: seq<string>): seq<string>
  {
    seq(|names|, i requires 0 <= i < |names| => dir + "/" + names[i])
  }

  predicate NoSlash(names: seq<string>)
  {
    forall i :: 0 <= i < |names| ==> '/' !in names[i]
  }

  /** Putting `dir` in front of any of the names leaves its key unchanged. */
  ghost predicate KeepsKeys(dir: string, names: seq<string>, key: KeyFn)
  {
    forall n :: n in names ==> key(dir + "/" + n) == key(n)
  }

  lemma {:induction false} InsertJoin(dir: string, x: string, s: seq<string>, key: KeyFn)
    requires key(dir + "/" + x) == key(x) && KeepsKeys(dir, s, key)
    ensures Insert(dir + "/" + x, Join(dir, s), key) == Join(dir, Insert(x, s, key))
  {
    var js := Join(dir, s);
    var jx := dir + "/" + x;
    if s == [] {
      assert Join(dir, [x]) == [jx];
    } else {
      var j0 := dir + "/" + s[0];
      assert js == [j0] + Join(dir, s[1..]) by {
        JoinCons(dir, s[0], s[1..]);
        assert s == [s[0]] + s[1..];
      }
      assert key(j0) == key(s[0]) by {
        assert s[0] in s;
      }
      if CompareKeys(key(s[0]), key(x)) == Less {
        var t := Insert(x, s[1..], key);
        assert Insert(jx, Join(dir, s[1..]), key) == Join(dir, t) by {
          assert KeepsKeys(dir, s[1..], key) by {
            forall n | n in s[1..] ensures key(dir + "/" + n) == key(n) {
              assert n in s;
            }
          }
          InsertJoin(dir, x, s[1..], key);
        }
        assert Insert(x, s, key) == [s[0]] + t;
        JoinCons(dir, s[0], t);
      } else {
        JoinCons(dir, x, s);
      }
    }
  }

  lemma JoinCons(dir: string, h: string, t: seq<string>)
    ensures Join(dir, [h] + t) == [dir + "/" + h] + Join(dir, t)
  {
  }

  /** Sorting `{dir}/{name}` paths by a key the directory does not change orders them as the bare names. */
  lemma {:induction false} SortJoinKeepingKeys(dir: string, names: seq<string>, key: KeyFn)
    requires KeepsKeys(dir, names, key)
    ensures Sort(Join(dir, names), key) == Join(dir, Sort(names, key))
  {
    if names != [] {
      var jn := Join(dir, names);
      assert jn[0] == dir + "/" + names[0];
      assert jn[1..] == Join(dir, names[1..]);
      assert names[0] in names;
      var rest := Sort(names[1..], key);
      assert KeepsKeys(dir, names[1..], key) by {
        forall n | n in names[1..] ensures key(dir + "/" + n) == key(n) {
          assert n in names;
        }
      }
      SortJoinKeepingKeys(dir, names[1..], key);
      assert KeepsKeys(dir, rest, key) by {
        forall n | n in rest ensures key(dir + "/" + n) == key(n) {
          assert n in multiset(rest);
          assert n in names;
        }
      }
      InsertJoin(dir, names[0], rest, key);
    }
  }

  /** The directory of a path never takes part in the script's key. */
  lemma KeyOfKeepsKeys(dir: string, names: seq<string>)
    requires NoSlash(names)
    ensures KeepsKeys(dir, names, KeyOf)
  {
    forall n | n in names ensures KeyOf(dir + "/" + n) == KeyOf(n) {
      var i :| 0 <= i < |names| && names[i] == n;
      StemNameIgnoresDirectory(dir, n);
    }
  }

  /**
   * Sorting `{dir}/{name}` paths orders them exactly as their bare names:
   * the directory never takes part in the key.
   */
  lemma SortJoin(dir: string, names: seq<string>)
    requires NoSlash(names)
    ensures Sort(Join(dir, names), KeyOf) == Join(dir, Sort(names, KeyOf))
    ensures Comparable(Join(dir, names), KeyOf) <==> Comparable(names, KeyOf)
  {
    KeyOfKeepsKeys(dir, names);
    SortJoinKeepingKeys(dir, names, KeyOf);
    var jn := Join(dir, names);
    forall i | 0 <= i < |names| ensures KeyOf(jn[i]) == KeyOf(names[i]) {
      assert names[i] in names;
    }
  }
}
