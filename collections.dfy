/**
 * The collection idioms of the exporter: a dictionary filled by successive assignments
 * (later assignments win), iteration over a set in an unspecified order, and Python's
 * `sorted(xs, key=...)` on strings.
 */
module Collections {
  import opened Wrappers
  import opened Text

  /** The dictionary obtained by executing `d[k] = v` for every present entry, in order. */
  function LastWins<K, V>(entries: seq<Option<(K, V)>>): map<K, V>
    decreases |entries|
  {
    if entries == [] then map[]
    else
      var prev := LastWins(entries[..|entries| - 1]);
      match entries[|entries| - 1]
      case None => prev
      case Some(e) => prev[e.0 := e.1]
  }

  /** One more assignment, as a loop performs it. */
  lemma LastWinsSnoc<K, V>(entries: seq<Option<(K, V)>>, i: nat)
    requires i < |entries|
    ensures LastWins(entries[..i + 1]) ==
              match entries[i]
              case None => LastWins(entries[..i])
              case Some(e) => LastWins(entries[..i])[e.0 := e.1]
  {
    assert entries[..i + 1][..i] == entries[..i];
  }

  /** Entry `i` assigns to key `k`. */
  ghost predicate Writes<K, V>(entries: seq<Option<(K, V)>>, i: int, k: K) {
    0 <= i < |entries| && entries[i].Some? && entries[i].value.0 == k
  }

  /** Entries before the last one assign to a key exactly as they do in the whole sequence. */
  lemma WritesPrefix<K, V>(entries: seq<Option<(K, V)>>, n: nat, k: K)
    requires n <= |entries|
    ensures forall i :: 0 <= i < n ==> (Writes(entries[..n], i, k) <==> Writes(entries, i, k))
  {
  }

  /** A key is present exactly when some entry assigns to it. */
  lemma {:induction false} LastWinsKeys<K, V>(entries: seq<Option<(K, V)>>, k: K)
    ensures k in LastWins(entries) <==> exists i :: Writes(entries, i, k)
    decreases |entries|
  {
    if entries != [] {
      var n := |entries| - 1;
      LastWinsKeys(entries[..n], k);
      WritesPrefix(entries, n, k);
      if !Writes(entries, n, k) && exists i :: Writes(entries, i, k) {
        var i :| Writes(entries, i, k);
        assert Writes(entries[..n], i, k);
      }
    }
  }

  /** A present key holds the value written by the last entry that assigns to it. */
  lemma {:induction false} LastWinsValue<K, V>(entries: seq<Option<(K, V)>>, k: K)
    requires k in LastWins(entries)
    ensures exists i :: Writes(entries, i, k) && entries[i].value.1 == LastWins(entries)[k]
                        && forall j :: i < j < |entries| ==> !Writes(entries, j, k)
    decreases |entries|
  {
    var n := |entries| - 1;
    if Writes(entries, n, k) {
      assert LastWins(entries)[k] == entries[n].value.1;
    } else {
      var init := entries[..n];
      assert k in LastWins(init) && LastWins(entries)[k] == LastWins(init)[k];
      LastWinsValue(init, k);
      WritesPrefix(entries, n, k);
      var i :| Writes(init, i, k) && init[i].value.1 == LastWins(init)[k]
               && forall j :: i < j < |init| ==> !Writes(init, j, k);
      assert Writes(entries, i, k) && entries[i].value.1 == LastWins(entries)[k];
    }
  }

  /**
   * A key is present exactly when some entry assigns to it, and its value is the one
   * written by the last such entry.
   */
  lemma LastWinsMeaning<K, V>(entries: seq<Option<(K, V)>>, k: K)
    ensures k in LastWins(entries) <==> exists i :: Writes(entries, i, k)
    ensures k in LastWins(entries) ==>
              exists i :: Writes(entries, i, k) && entries[i].value.1 == LastWins(entries)[k]
                          && forall j :: i < j < |entries| ==> !Writes(entries, j, k)
  {
    LastWinsKeys(entries, k);
    if k in LastWins(entries) {
      LastWinsValue(entries, k);
    }
  }

  /** `next(i for i, x in enumerate(s) if p(x))`, or `None` where Python raises `StopIteration`. */
  function FirstIndex<T>(s: seq<T>, p: T -> bool): (r: Option<nat>)
    ensures r.Some? ==> r.value < |s| && p(s[r.value]) && forall j :: 0 <= j < r.value ==> !p(s[j])
    ensures r.None? ==> forall j :: 0 <= j < |s| ==> !p(s[j])
    decreases |s|
  {
    if s == [] then None
    else if p(s[0]) then Some(0)
    else
      match FirstIndex(s[1..], p)
      case Some(k) => Some(k + 1)
      case None => None
  }

  /** `s` is in non-decreasing order of `key`, compared as Python compares strings. */
  predicate SortedBy(s: seq<string>, key: string -> string) {
    forall i, j :: 0 <= i < j < |s| ==> LexLe(key(s[i]), key(s[j]))
  }

  /** The key of a plain `sorted` on strings. */
  function Identity(s: string): string {
    s
  }

  /** Inserts `x` before the first element whose key is not below `x`'s. */
  function InsertBy(x: string, s: seq<string>, key: string -> string): (r: seq<string>)
    ensures multiset(r) == multiset(s) + multiset{x}
    decreases |s|
  {
    if s == [] then [x]
    else if LexLe(key(x), key(s[0])) then [x] + s
    else
      MultisetCons(s);
      [s[0]] + InsertBy(x, s[1..], key)
  }

  lemma {:induction false} InsertBySorted(x: string, s: seq<string>, key: string -> string)
    requires SortedBy(s, key)
    ensures SortedBy(InsertBy(x, s, key), key)
    decreases |s|
  {
    if s == [] {
    } else if LexLe(key(x), key(s[0])) {
      forall j | 0 <= j < |s|
        ensures LexLe(key(x), key(s[j]))
      {
        if j > 0 {
          LexLeTransitive(key(x), key(s[0]), key(s[j]));
        }
      }
      SortedCons(x, s, key);
    } else {
      InsertBySorted(x, s[1..], key);
      HeadBelowInserted(x, s, key);
      SortedCons(s[0], InsertBy(x, s[1..], key), key);
    }
  }

  /** A sorted sequence stays sorted under a head whose key is below every key in it. */
  lemma SortedCons(h: string, t: seq<string>, key: string -> string)
    requires SortedBy(t, key)
    requires forall j :: 0 <= j < |t| ==> LexLe(key(h), key(t[j]))
    ensures SortedBy([h] + t, key)
  {
    var r := [h] + t;
    forall i, j | 0 <= i < j < |r|
      ensures LexLe(key(r[i]), key(r[j]))
    {
      assert r[j] == t[j - 1];
      if i > 0 {
        assert r[i] == t[i - 1];
      }
    }
  }

  /** When `x` goes past the head, everything it is inserted among has keys above the head's. */
  lemma HeadBelowInserted(x: string, s: seq<string>, key: string -> string)
    requires SortedBy(s, key) && s != [] && !LexLe(key(x), key(s[0]))
    ensures forall j :: 0 <= j < |InsertBy(x, s[1..], key)| ==> LexLe(key(s[0]), key(InsertBy(x, s[1..], key)[j]))
  {
    var rest := InsertBy(x, s[1..], key);
    LexLeTotal(key(x), key(s[0]));
    forall j | 0 <= j < |rest|
      ensures LexLe(key(s[0]), key(rest[j]))
    {
      assert rest[j] in multiset(rest);
      if rest[j] != x {
        assert rest[j] in multiset(s[1..]);
        var k :| 0 <= k < |s[1..]| && s[1..][k] == rest[j];
        assert s[k + 1] == rest[j];
      }
    }
  }

  /** Python's `sorted(s, key=key)` on strings: a permutation of `s` ordered by `key`. */
  function SortBy(s: seq<string>, key: string -> string): (r: seq<string>)
    ensures SortedBy(r, key)
    ensures multiset(r) == multiset(s)
    decreases |s|
  {
    if s == [] then []
    else
      var sortedTail := SortBy(s[1..], key);
      InsertBySorted(s[0], sortedTail, key);
      MultisetCons(s);
      InsertBy(s[0], sortedTail, key)
  }

  lemma MultisetCons<T>(s: seq<T>)
    requires s != []
    ensures multiset(s) == multiset(s[1..]) + multiset{s[0]}
  {
    assert s == [s[0]] + s[1..];
  }

  /** The set of the elements of `s`. */
  function Elements<T>(s: seq<T>): set<T> {
    set x | x in s
  }

  /** A sequence holding each element of a set once has no repeated element. */
  lemma DistinctFromSet<T>(s: seq<T>, S: set<T>)
    requires multiset(s) == multiset(S)
    ensures forall i, j :: 0 <= i < j < |s| ==> s[i] != s[j]
  {
    forall i, j | 0 <= i < j < |s|
      ensures s[i] != s[j]
    {
      RepeatCounts(s, i, j);
    }
  }

  lemma RepeatCounts<T>(s: seq<T>, i: nat, j: nat)
    requires i < j < |s|
    ensures s[i] == s[j] ==> multiset(s)[s[j]] >= 2
  {
    assert s == s[..j] + [s[j]] + s[j + 1..];
    assert s[..j][i] == s[i];
  }

  /**
   * Iterating over a set: the elements come out once each, in an order the program does
   * not control (each step picks any remaining element).
   */
  method SetToSeq<T>(s: set<T>) returns (r: seq<T>)
    ensures multiset(r) == multiset(s)
  {
    r := [];
    var rest := s;
    while rest != {}
      invariant rest <= s
      invariant multiset(r) + multiset(rest) == multiset(s)
      decreases rest
    {
      var x :| x in rest;
      assert multiset(rest) == multiset(rest - {x}) + multiset{x};
      r := r + [x];
      rest := rest - {x};
    }
  }
}
