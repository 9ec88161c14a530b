/**
 * The Python built-ins the models lean on: indexing with negative
 * indices, walking a set in whatever order the interpreter yields its
 * elements, and `sorted(..., key=...)`.
 */
module Collections {

  /** Python's `seq[i]` for -n <= i < n: negative indices count from the end. */
  function PyIndex(i: int, n: nat): (k: nat)
    requires -(n as int) <= i < n
    ensures k < n && (0 <= i ==> k == i)
    ensures i < 0 ==> k == i + n
  {
    if i < 0 then i + n else i
  }

  /** The elements of `s` in some order, each exactly once (the order of `for x in s`). */
  method ListOf<T>(s: set<T>) returns (r: seq<T>)
    ensures multiset(r) == multiset(s)
    ensures forall x :: x in r <==> x in s
  {
    r := [];
    var rest := s;
    while rest != {}
      invariant rest <= s
      invariant multiset(r) + multiset(rest) == multiset(s)
      decreases |rest|
    {
      var x :| x in rest;
      r := r + [x];
      rest := rest - {x};
    }
    assert rest == {};
    assert multiset(rest) == multiset{};
    forall x ensures x in r <==> x in s {
      calc {
        x in r;
        x in multiset(r);
        x in multiset(s);
        x in s;
      }
    }
  }

  /** Every element of `s` has a key, and keys never decrease along `s`. */
  predicate SortedByKey<T>(s: seq<T>, key: map<T, nat>) {
    && (forall k :: 0 <= k < |s| ==> s[k] in key)
    && forall p, q :: 0 <= p < q < |s| ==> key[s[p]] <= key[s[q]]
  }

  /** Puts `w` in front of the first element whose key is not smaller. */
  function InsertByKey<T>(w: T, s: seq<T>, key: map<T, nat>): (r: seq<T>)
    requires w in key && SortedByKey(s, key)
    ensures SortedByKey(r, key)
    ensures multiset(r) == multiset(s) + multiset{w}
  {
    if s == [] || key[w] <= key[s[0]] then
      ConsSorted(w, s, key);
      [w] + s
    else
      var tail := InsertByKey(w, s[1..], key);
      assert s == [s[0]] + s[1..];
      BoundKept(key[s[0]], tail, s[1..], w, key);
      ConsSorted(s[0], tail, key);
      [s[0]] + tail
  }

  /** An element whose key bounds the first key of a sorted sequence can go in front of it. */
  lemma ConsSorted<T>(x: T, t: seq<T>, key: map<T, nat>)
    requires x in key && SortedByKey(t, key)
    requires t != [] ==> key[x] <= key[t[0]]
    ensures SortedByKey([x] + t, key)
  {
  }

  /** A lower bound on the keys of `rest` and on w's key bounds every key of a reordering of rest + [w]. */
  lemma BoundKept<T>(b: nat, r: seq<T>, rest: seq<T>, w: T, key: map<T, nat>)
    requires multiset(r) == multiset(rest) + multiset{w}
    requires w in key && b <= key[w]
    requires forall k :: 0 <= k < |rest| ==> rest[k] in key && b <= key[rest[k]]
    ensures forall k :: 0 <= k < |r| ==> r[k] in key && b <= key[r[k]]
  {
    forall k | 0 <= k < |r| ensures r[k] in key && b <= key[r[k]] {
      assert r[k] in multiset(r);
      if r[k] != w {
        assert r[k] in multiset(rest);
      }
    }
  }

  /** `sorted(s, key=lambda x: key[x])`: a reordering of `s` by non-decreasing key. */
  function SortByKey<T>(s: seq<T>, key: map<T, nat>): (r: seq<T>)
    requires forall k :: 0 <= k < |s| ==> s[k] in key
    ensures SortedByKey(r, key)
    ensures multiset(r) == multiset(s)
  {
    if s == [] then []
    else
      assert s == [s[0]] + s[1..];
      InsertByKey(s[0], SortByKey(s[1..], key), key)
  }

  /** Moving x from the pending part of a set scan to the finished part. */
  lemma ScanOne<T>(all: set<T>, todo: set<T>, x: T)
    requires todo <= all && x in todo
    ensures all - todo + {x} == all - (todo - {x})
  {
  }
}
