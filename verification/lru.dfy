/** The observable behaviour of a bounded least-recently-used cache of string keys
    (the `LruCache<String, bool>` that holds the sessions; every stored value is
    `true`, so only the keys and their recency order matter).

    Recency policy: both `insert` and `contains_key` count as an access. Inserting a
    key moves it to the most-recent end; looking a key up that is present does too. */
module Lru {
  /** Keys ordered from least to most recently used, and the fixed capacity. */
  datatype Lru = Lru(recency: seq<string>, capacity: nat)

  predicate Distinct(s: seq<string>)
  {
    forall i, j :: 0 <= i < j < |s| ==> s[i] != s[j]
  }

  /** The cache's representation invariant. */
  predicate Valid(c: Lru)
  {
    && 0 < c.capacity
    && |c.recency| <= c.capacity
    && Distinct(c.recency)
  }

  /** An empty cache with room for `capacity` keys. */
  function New(capacity: nat): (c: Lru)
    requires 0 < capacity
    ensures Valid(c)
    ensures c.recency == [] && c.capacity == capacity
  {
    Lru([], capacity)
  }

  /** `s` with `k` taken out, the other keys in their original order. */
  function Without(s: seq<string>, k: string): (r: seq<string>)
    ensures forall x :: x in r <==> x in s && x != k
    ensures |r| <= |s|
    ensures k !in s ==> r == s
    ensures Distinct(s) ==> Distinct(r)
    ensures Distinct(s) && k in s ==> |r| == |s| - 1
    ensures Distinct(s) ==> forall i :: 0 <= i < |s| && s[i] == k ==> r == s[..i] + s[i + 1..]
  {
    if |s| == 0 then []
    else if s[0] == k then
      DistinctCons(s[0], s[1..]);
      assert s == [s[0]] + s[1..];
      Without(s[1..], k)
    else
      var rest := Without(s[1..], k);
      DistinctCons(s[0], s[1..]);
      DistinctCons(s[0], rest);
      assert s == [s[0]] + s[1..];
      if Distinct(s) then ConsWithout(s[0], s[1..], k, rest); [s[0]] + rest
      else [s[0]] + rest
  }

  /** Putting back a head that is not `k` keeps the "`k` cut out in place" shape. */
  lemma ConsWithout(a: string, t: seq<string>, k: string, rest: seq<string>)
    requires a != k
    requires forall i :: 0 <= i < |t| && t[i] == k ==> rest == t[..i] + t[i + 1..]
    ensures forall i :: 0 <= i < |[a] + t| && ([a] + t)[i] == k ==>
      [a] + rest == ([a] + t)[..i] + ([a] + t)[i + 1..]
  {
    var s := [a] + t;
    forall i | 0 <= i < |s| && s[i] == k
      ensures [a] + rest == s[..i] + s[i + 1..]
    {
      assert t[i - 1] == k;
      assert s[..i] == [a] + t[..i - 1];
      assert s[i + 1..] == t[i..];
    }
  }

  lemma DistinctCons(a: string, t: seq<string>)
    ensures Distinct([a] + t) <==> a !in t && Distinct(t)
  {
    var s := [a] + t;
    assert forall i :: 0 <= i < |t| ==> s[i + 1] == t[i];
    if Distinct(s) {
      forall i, j | 0 <= i < j < |t|
        ensures t[i] != t[j]
      {
        assert s[i + 1] == t[i] && s[j + 1] == t[j];
      }
      forall i | 0 <= i < |t|
        ensures t[i] != a
      {
        assert s[i + 1] == t[i] && s[0] == a;
      }
    }
    if a !in t && Distinct(t) {
      forall i, j | 0 <= i < j < |s|
        ensures s[i] != s[j]
      {
        if i > 0 {
          assert s[i] == t[i - 1] && s[j] == t[j - 1];
        } else {
          assert s[j] == t[j - 1];
        }
      }
    }
  }

  /** `k` made the most recently used key (it need not have been present). */
  function Refresh(s: seq<string>, k: string): (r: seq<string>)
    ensures |r| > 0 && r[|r| - 1] == k
    ensures forall x :: x in r <==> x in s || x == k
    ensures Distinct(s) ==> Distinct(r)
    ensures Distinct(s) ==> |r| == if k in s then |s| else |s| + 1
  {
    Without(s, k) + [k]
  }

  /** `insert(k, true)`: `k` becomes the most recent key; if that leaves more keys
      than the capacity allows, the least recently used one is evicted. */
  function Insert(c: Lru, k: string): (r: Lru)
    requires Valid(c)
    ensures Valid(r) && r.capacity == c.capacity
    ensures |r.recency| > 0 && r.recency[|r.recency| - 1] == k
    ensures k in c.recency || |c.recency| < c.capacity ==>
      forall x :: x in r.recency <==> x in c.recency || x == k
    ensures k !in c.recency && |c.recency| == c.capacity ==>
      forall x :: x in r.recency <==> (x in c.recency && x != c.recency[0]) || x == k
    ensures k in c.recency ==> r.recency == Without(c.recency, k) + [k]
    ensures k !in c.recency && |c.recency| < c.capacity ==> r.recency == c.recency + [k]
    ensures k !in c.recency && |c.recency| == c.capacity ==> r.recency == c.recency[1..] + [k]
  {
    var moved := Refresh(c.recency, k);
    if |moved| > c.capacity then
      assert k !in c.recency && moved == c.recency + [k];
      assert moved[1..] == c.recency[1..] + [k];
      Lru(moved[1..], c.capacity)
    else
      Lru(moved, c.capacity)
  }

  /** `contains_key(k)`: whether `k` is held, and the cache afterwards, with `k`
      promoted to most recent when it is held. */
  function ContainsKey(c: Lru, k: string): (r: (bool, Lru))
    requires Valid(c)
    ensures r.0 <==> k in c.recency
    ensures Valid(r.1) && r.1.capacity == c.capacity
    ensures forall x :: x in r.1.recency <==> x in c.recency
    ensures r.0 ==> r.1.recency[|r.1.recency| - 1] == k
    ensures r.0 ==> r.1.recency == Without(c.recency, k) + [k]
    ensures !r.0 ==> r.1 == c
  {
    if k in c.recency then (true, Lru(Refresh(c.recency, k), c.capacity))
    else (false, c)
  }

  /** The cache after inserting `ks` in order, with no lookups in between. */
  function InsertAll(c: Lru, ks: seq<string>): (r: Lru)
    requires Valid(c)
    ensures Valid(r) && r.capacity == c.capacity
  {
    if |ks| == 0 then c else Insert(InsertAll(c, ks[..|ks| - 1]), ks[|ks| - 1])
  }

  /** A key just inserted is found by an immediate lookup. */
  lemma InsertThenContains(c: Lru, k: string)
    requires Valid(c)
    ensures ContainsKey(Insert(c, k), k).0
  {
  }

  /** Looking up a key that is absent changes nothing and reports false. */
  lemma ContainsAbsent(c: Lru, k: string)
    requires Valid(c) && k !in c.recency
    ensures ContainsKey(c, k) == (false, c)
  {
  }

  /** Filling an empty cache with at most `capacity` distinct keys evicts nothing
      and leaves them in insertion order. */
  lemma {:induction false} FillKeepsOrder(capacity: nat, ks: seq<string>)
    requires 0 < capacity && |ks| <= capacity && Distinct(ks)
    ensures InsertAll(New(capacity), ks).recency == ks
  {
    if |ks| > 0 {
      var init := ks[..|ks| - 1];
      var last := ks[|ks| - 1];
      FillKeepsOrder(capacity, init);
      assert last !in init;
      assert init + [last] == ks;
    }
  }

  /** Inserting `capacity + 1` distinct keys into an empty cache, with no lookups in
      between, evicts exactly the first key and keeps the rest in order. */
  lemma {:induction false} OverflowEvictsFirst(capacity: nat, ks: seq<string>)
    requires 0 < capacity && |ks| == capacity + 1 && Distinct(ks)
    ensures InsertAll(New(capacity), ks).recency == ks[1..]
    ensures ks[0] !in InsertAll(New(capacity), ks).recency
    ensures forall i :: 1 <= i < |ks| ==> ks[i] in InsertAll(New(capacity), ks).recency
  {
    OverflowRecency(capacity, ks);
    var rec := InsertAll(New(capacity), ks).recency;
    forall i | 1 <= i < |ks|
      ensures ks[i] in rec && ks[i] != ks[0]
    {
      assert rec[i - 1] == ks[i];
    }
  }

  lemma {:induction false} OverflowRecency(capacity: nat, ks: seq<string>)
    requires 0 < capacity && |ks| == capacity + 1 && Distinct(ks)
    ensures InsertAll(New(capacity), ks).recency == ks[1..]
  {
    var init := ks[..capacity];
    var last := ks[capacity];
    assert init + [last] == ks;
    assert last !in init;
    FillKeepsOrder(capacity, init);
    InsertAllSnoc(New(capacity), init, last);
    assert init[1..] + [last] == ks[1..];
  }

  lemma InsertAllSnoc(c: Lru, ks: seq<string>, k: string)
    requires Valid(c)
    ensures InsertAll(c, ks + [k]) == Insert(InsertAll(c, ks), k)
  {
    assert (ks + [k])[..|ks|] == ks;
  }

  /** The number of held keys never exceeds the capacity, whatever is inserted. */
  lemma InsertAllBounded(c: Lru, ks: seq<string>)
    requires Valid(c)
    ensures |InsertAll(c, ks).recency| <= c.capacity
  {
  }
}
