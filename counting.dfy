/**
 The value-counting idiom `counts[v] = counts.get(v, 0) + 1` over an
 insertion-ordered dict, stated on its input sequence: the distinct values in
 order of first occurrence, each paired with its number of occurrences.
 */
module Counting {

  /** No value occurs twice in `s`. */
  predicate Distinct<T(==,!new)>(s: seq<T>) {
    forall i, j :: 0 <= i < j < |s| ==> s[i] != s[j]
  }

  /** The position of the first occurrence of `x` in `s`. */
  function FirstIndex<T(==,!new)>(s: seq<T>, x: T): (i: nat)
    requires x in s
    ensures i < |s| && s[i] == x
    ensures forall j :: 0 <= j < i ==> s[j] != x
  {
    if s[0] == x then 0 else 1 + FirstIndex(s[1..], x)
  }

  /** The distinct values of `s`, in the order in which each first occurs
      (the key order of a dict filled from `s`). */
  function Dedup<T(==,!new)>(s: seq<T>): (keys: seq<T>)
    ensures forall x :: x in keys <==> x in s
  {
    if s == [] then []
    else
      var init := s[..|s| - 1];
      var keys := Dedup(init);
      if s[|s| - 1] in init then keys else keys + [s[|s| - 1]]
  }

  /** No value is listed twice among the keys. */
  lemma {:induction false} DedupDistinct<T(!new)>(s: seq<T>)
    ensures Distinct(Dedup(s))
  {
    if s != [] {
      DedupDistinct(s[..|s| - 1]);
    }
  }

  /** Appending a value adds it to the keys unless it was seen before. */
  lemma DedupSnoc<T(!new)>(s: seq<T>, x: T)
    ensures Dedup(s + [x]) == if x in s then Dedup(s) else Dedup(s) + [x]
  {
    assert (s + [x])[..|s|] == s;
  }

  /** An insertion-ordered dict from values to counts: `keys` lists the keys in the
      order they were first stored, `entries` maps each key to its count. */
  datatype Dict<T> = Dict(keys: seq<T>, entries: map<T, nat>)

  /** `d.get(x, 0)`. */
  function Get<T(==)>(d: Dict<T>, x: T): (v: nat)
    ensures x !in d.entries ==> v == 0
  {
    if x in d.entries then d.entries[x] else 0
  }

  /** `d[x] = v`: a new key goes last, a key already present keeps its place. */
  function Put<T(==)>(d: Dict<T>, x: T, v: nat): (e: Dict<T>)
    ensures |e.keys| == |d.keys| + (if x in d.entries then 0 else 1)
  {
    Dict(if x in d.entries then d.keys else d.keys + [x], d.entries[x := v])
  }

  /** `d[x] = v` keeps every key in its place, adds `x` last when it was not a key, and
      makes `x` an entry. */
  lemma PutKeepsOrder<T(!new)>(d: Dict<T>, x: T, v: nat)
    ensures var e := Put(d, x, v);
            && e.entries.Keys == d.entries.Keys + {x}
            && e.keys[..|d.keys|] == d.keys
            && (x !in d.entries ==> e.keys[|d.keys|] == x)
  {
  }

  /** After `d[x] = v`, `d.get(x, 0)` is `v` and every other key reads as before. */
  lemma GetPut<T(!new)>(d: Dict<T>, x: T, v: nat)
    ensures Get(Put(d, x, v), x) == v
    ensures forall y :: y != x ==> Get(Put(d, x, v), y) == Get(d, y)
  {
  }

  /** `d.items()`: each key, in order, with its entry. */
  function Items<T(==)>(d: Dict<T>): (ps: seq<(T, nat)>)
    requires forall k :: 0 <= k < |d.keys| ==> d.keys[k] in d.entries
    ensures |ps| == |d.keys|
    ensures forall k :: 0 <= k < |ps| ==> ps[k].0 == d.keys[k] && ps[k].1 == d.entries[d.keys[k]]
  {
    seq(|d.keys|, k requires 0 <= k < |d.keys| => (d.keys[k], d.entries[d.keys[k]]))
  }

  /** The dict `d` holds the counts of the values `vals`: its keys are the distinct
      values in order of first occurrence, each mapped to its number of occurrences. */
  ghost predicate Counted<T(!new)>(vals: seq<T>, d: Dict<T>) {
    && d.keys == Dedup(vals)
    && (forall v :: v in d.entries <==> v in d.keys)
    && (forall v :: v in d.entries ==> d.entries[v] == multiset(vals)[v])
  }

  /** The empty dict counts no values. */
  lemma CountedEmpty<T(!new)>()
    ensures Counted<T>([], Dict([], map[]))
  {
  }

  /** `d[x] = d.get(x, 0) + 1` counts one more value. */
  lemma CountOne<T(!new)>(vals: seq<T>, d: Dict<T>, x: T)
    requires Counted(vals, d)
    ensures x in d.entries <==> x in vals
    ensures Counted(vals + [x], CountStep(d, x))
  {
    CountStepKeys(vals, d, x);
    CountStepEntries(vals, d, x);
  }

  /** After the update the keys are those of the values counted so far plus `x`,
      with `x` last when it is new, and they are still exactly the entries' keys. */
  lemma CountStepKeys<T(!new)>(vals: seq<T>, d: Dict<T>, x: T)
    requires Counted(vals, d)
    ensures x in d.entries <==> x in vals
    ensures CountStep(d, x).keys == Dedup(vals + [x])
    ensures forall v :: v in CountStep(d, x).entries <==> v in CountStep(d, x).keys
  {
    assert x in d.entries <==> x in Dedup(vals);
    DedupSnoc(vals, x);
  }

  /** After the update every entry is the number of occurrences of its key. */
  lemma CountStepEntries<T(!new)>(vals: seq<T>, d: Dict<T>, x: T)
    requires Counted(vals, d)
    ensures forall v :: v in CountStep(d, x).entries ==> CountStep(d, x).entries[v] == multiset(vals + [x])[v]
  {
    var e := CountStep(d, x);
    var m := multiset(vals + [x]);
    assert m == multiset(vals) + multiset{x};
    forall v | v in e.entries ensures e.entries[v] == m[v] {
      if v != x { assert v in d.entries; }
    }
  }

  /** One pass of the loop body: `d[x] = d.get(x, 0) + 1`. */
  function CountStep<T(==)>(d: Dict<T>, x: T): Dict<T> {
    Put(d, x, Get(d, x) + 1)
  }

  /** The dict that the loop builds over `vals`, starting from an empty dict. */
  function CountAll<T(==)>(vals: seq<T>): Dict<T> {
    if vals == [] then Dict([], map[]) else CountStep(CountAll(vals[..|vals| - 1]), vals[|vals| - 1])
  }

  /** Counting one more value is one more pass of the loop body. */
  lemma CountAllSnoc<T(!new)>(vals: seq<T>, x: T)
    ensures CountAll(vals + [x]) == CountStep(CountAll(vals), x)
  {
    assert (vals + [x])[..|vals|] == vals;
  }

  /** The dict built over `vals` holds the counts of `vals`. */
  lemma {:induction false} CountAllCounts<T(!new)>(vals: seq<T>)
    ensures Counted(vals, CountAll(vals))
  {
    if vals == [] {
      CountedEmpty<T>();
    } else {
      var init, x := vals[..|vals| - 1], vals[|vals| - 1];
      assert init + [x] == vals;
      CountAllCounts(init);
      CountOne(init, CountAll(init), x);
      CountAllSnoc(init, x);
    }
  }

  /** The items of a dict that counted `vals` are the tally of `vals`. */
  lemma CountedItems<T(!new)>(vals: seq<T>, d: Dict<T>)
    requires Counted(vals, d)
    ensures forall k :: 0 <= k < |d.keys| ==> d.keys[k] in d.entries
    ensures Items(d) == Tally(vals)
  {
  }

  /** Each key paired with its count in `m` (the dict's `items()`). */
  function Pairs<T(==,!new)>(keys: seq<T>, m: multiset<T>): (ps: seq<(T, nat)>)
    ensures |ps| == |keys|
    ensures forall k :: 0 <= k < |ps| ==> ps[k] == (keys[k], m[keys[k]])
  {
    if keys == [] then [] else Pairs(keys[..|keys| - 1], m) + [(keys[|keys| - 1], m[keys[|keys| - 1]])]
  }

  /** The sum of the counts in `ps`. */
  function TotalCount<T(==,!new)>(ps: seq<(T, nat)>): nat {
    if ps == [] then 0 else TotalCount(ps[..|ps| - 1]) + ps[|ps| - 1].1
  }

  /** The (value, count) list a counting loop over `s` produces. */
  function Tally<T(==,!new)>(s: seq<T>): seq<(T, nat)> {
    Pairs(Dedup(s), multiset(s))
  }

  /** The values of the tally are exactly the values of `s`, each once, and
      every count is the number of occurrences, at least one. */
  lemma TallyEntries<T(!new)>(s: seq<T>)
    ensures |Tally(s)| == |Dedup(s)|
    ensures Distinct(Dedup(s))
    ensures forall i :: 0 <= i < |s| ==> exists k :: 0 <= k < |Tally(s)| && Tally(s)[k].0 == s[i]
    ensures forall k :: 0 <= k < |Tally(s)| ==> Tally(s)[k].0 in s
    ensures forall k :: 0 <= k < |Tally(s)| ==> Tally(s)[k].1 == multiset(s)[Tally(s)[k].0] >= 1
  {
    DedupDistinct(s);
    var t := Tally(s);
    forall i | 0 <= i < |s| ensures exists k :: 0 <= k < |t| && t[k].0 == s[i] {
      var k := FirstIndex(Dedup(s), s[i]);
      assert t[k].0 == s[i];
    }
  }

  /** No two entries of the tally carry the same value. */
  lemma TallyDistinct<T(!new)>(s: seq<T>)
    ensures forall i, j :: 0 <= i < j < |Tally(s)| ==> Tally(s)[i].0 != Tally(s)[j].0
  {
    DedupDistinct(s);
    var d := Dedup(s);
    assert forall k :: 0 <= k < |Tally(s)| ==> Tally(s)[k].0 == d[k];
  }

  /** The counts of the tally add up to the length of `s`. */
  lemma {:induction false} TallyTotal<T(!new)>(s: seq<T>)
    ensures TotalCount(Tally(s)) == |s|
  {
    if s != [] {
      var init, y := s[..|s| - 1], s[|s| - 1];
      assert s == init + [y];
      TallyTotal(init);
      var keys := Dedup(init);
      DedupDistinct(init);
      assert multiset(s) == multiset(init) + multiset{y};
      TotalCountAddOne(keys, multiset(init), y);
      if y !in init {
        var m := multiset(s);
        assert Pairs(keys + [y], m)[..|keys|] == Pairs(keys, m);
        assert m[y] == 1;
      }
    }
  }

  /** Adding one occurrence of `y` raises the total over distinct `keys` by one
      exactly when `y` is one of the keys. */
  lemma {:induction false} TotalCountAddOne<T(!new)>(keys: seq<T>, m: multiset<T>, y: T)
    requires Distinct(keys)
    ensures TotalCount(Pairs(keys, m + multiset{y}))
            == TotalCount(Pairs(keys, m)) + (if y in keys then 1 else 0)
  {
    if keys != [] {
      var init := keys[..|keys| - 1];
      TotalCountAddOne(init, m, y);
      assert y in keys <==> y in init || y == keys[|keys| - 1];
    }
  }

  /** The tally lists its values in the order of their first occurrence in `s`. */
  lemma {:induction false} TallyFirstOccurrenceOrder<T(!new)>(s: seq<T>)
    ensures forall i, j :: 0 <= i < j < |Tally(s)| ==>
              FirstIndex(s, Tally(s)[i].0) < FirstIndex(s, Tally(s)[j].0)
  {
    DedupFirstOccurrenceOrder(s);
    var d := Dedup(s);
    assert forall k :: 0 <= k < |Tally(s)| ==> Tally(s)[k].0 == d[k];
  }

  lemma {:induction false} DedupFirstOccurrenceOrder<T(!new)>(s: seq<T>)
    ensures forall i, j :: 0 <= i < j < |Dedup(s)| ==>
              FirstIndex(s, Dedup(s)[i]) < FirstIndex(s, Dedup(s)[j])
  {
    if s != [] {
      var init, y := s[..|s| - 1], s[|s| - 1];
      DedupFirstOccurrenceOrder(init);
      forall x | x in init ensures FirstIndex(s, x) == FirstIndex(init, x) {
        FirstIndexOfPrefix(init, s, x);
      }
      if y !in init {
        assert FirstIndex(s, y) == |init|;
      }
    }
  }

  /** A value already in a prefix is first found where the prefix first has it. */
  lemma FirstIndexOfPrefix<T(!new)>(p: seq<T>, s: seq<T>, x: T)
    requires x in p && p <= s
    ensures FirstIndex(s, x) == FirstIndex(p, x)
  {
    var i, j := FirstIndex(s, x), FirstIndex(p, x);
    assert s[j] == x;
    assert forall k :: 0 <= k < |p| ==> p[k] == s[k];
  }
}
