/**
 * PHP arrays: ordered maps from integer or string keys to values, each key at most once.
 * The functions here are the array built-ins Patrol calls (array_filter, array_chunk,
 * array_merge, array_unique, array_combine) and the element write `$a[$k] = $v`.
 */
module Php {
  import opened Wrappers

  /** An array key: PHP keys are integers or strings. */
  datatype Key = IntKey(i: int) | StrKey(s: string)

  predicate DistinctKeys<V>(a: seq<(Key, V)>) {
    forall i, j | 0 <= i < j < |a| :: a[i].0 != a[j].0
  }

  /** A PHP array: its entries in order, no key twice. */
  type PhpArray<V> = a: seq<(Key, V)> | DistinctKeys(a) witness []

  function KeysOf<V>(a: seq<(Key, V)>): (ks: seq<Key>)
    ensures |ks| == |a| && forall i | 0 <= i < |a| :: ks[i] == a[i].0
  {
    seq(|a|, i requires 0 <= i < |a| => a[i].0)
  }

  function ValuesOf<V>(a: seq<(Key, V)>): (vs: seq<V>)
    ensures |vs| == |a| && forall i | 0 <= i < |a| :: vs[i] == a[i].1
  {
    seq(|a|, i requires 0 <= i < |a| => a[i].1)
  }

  /** A PHP list: the values under the keys 0, 1, 2, ... */
  function List<V>(vs: seq<V>): (a: PhpArray<V>)
    ensures |a| == |vs| && forall i | 0 <= i < |vs| :: a[i] == (IntKey(i), vs[i])
  {
    seq(|vs|, i requires 0 <= i < |vs| => (IntKey(i), vs[i]))
  }

  /** Every key is an integer. */
  predicate IntKeyed<V>(a: seq<(Key, V)>) {
    forall i | 0 <= i < |a| :: a[i].0.IntKey?
  }

  /** Ordered sub-sequence: `r` is `s` with some entries left out. */
  ghost predicate Subseq<T>(r: seq<T>, s: seq<T>)
    decreases |s|
  {
    if r == [] then true
    else if s == [] then false
    else (r[|r| - 1] == s[|s| - 1] && Subseq(r[..|r| - 1], s[..|s| - 1])) || Subseq(r, s[..|s| - 1])
  }

  lemma SubseqExtend<T>(r: seq<T>, s: seq<T>, x: T)
    requires Subseq(r, s)
    ensures Subseq(r, s + [x]) && Subseq(r + [x], s + [x])
  {
    assert (s + [x])[..|s|] == s;
    assert (r + [x])[..|r|] == r;
  }

  /** Leaving entries out never makes a sequence longer. */
  lemma {:induction false} SubseqLength<T>(r: seq<T>, s: seq<T>)
    requires Subseq(r, s)
    ensures |r| <= |s|
    decreases |s|
  {
    if r != [] {
      if r[|r| - 1] == s[|s| - 1] && Subseq(r[..|r| - 1], s[..|s| - 1]) {
        SubseqLength(r[..|r| - 1], s[..|s| - 1]);
      } else {
        SubseqLength(r, s[..|s| - 1]);
      }
    }
  }

  /** Leaving entries out of an array leaves the same values out of its value list. */
  lemma {:induction false} SubseqValues<V>(r: seq<(Key, V)>, s: seq<(Key, V)>)
    requires Subseq(r, s)
    ensures Subseq(ValuesOf(r), ValuesOf(s))
    decreases |s|
  {
    if r != [] {
      var r', s' := r[..|r| - 1], s[..|s| - 1];
      assert ValuesOf(r)[..|r| - 1] == ValuesOf(r');
      assert ValuesOf(s)[..|s| - 1] == ValuesOf(s');
      if r[|r| - 1] == s[|s| - 1] && Subseq(r', s') {
        SubseqValues(r', s');
      } else {
        SubseqValues(r, s');
      }
    }
  }

  /** Leaving entries out of an array leaves the same keys out of its key list. */
  lemma {:induction false} SubseqKeys<V>(r: seq<(Key, V)>, s: seq<(Key, V)>)
    requires Subseq(r, s)
    ensures Subseq(KeysOf(r), KeysOf(s))
    decreases |s|
  {
    if r != [] {
      var r', s' := r[..|r| - 1], s[..|s| - 1];
      assert KeysOf(r)[..|r| - 1] == KeysOf(r');
      assert KeysOf(s)[..|s| - 1] == KeysOf(s');
      if r[|r| - 1] == s[|s| - 1] && Subseq(r', s') {
        SubseqKeys(r', s');
      } else {
        SubseqKeys(r, s');
      }
    }
  }

  lemma AppendAssoc<T>(a: seq<T>, b: seq<T>, c: seq<T>)
    ensures (a + b) + c == a + (b + c)
  {
  }

  lemma AppendEmpty<T>(s: seq<T>)
    ensures s + [] == s && [] + s == s
  {
  }

  lemma TakeTake<T>(s: seq<T>, i: nat, j: nat)
    requires i <= j <= |s|
    ensures s[..j][..i] == s[..i]
  {
  }

  /** Appending one element keeps the earlier ones where they were. */
  lemma SnocAt<T>(s: seq<T>, x: T)
    ensures |s + [x]| == |s| + 1 && (s + [x])[|s|] == x
    ensures forall j | 0 <= j < |s| :: (s + [x])[j] == s[j]
  {
  }

  lemma PrefixSnoc<T>(s: seq<T>, i: nat)
    requires i < |s|
    ensures s[..i + 1] == s[..i] + [s[i]]
  {
  }

  /** $a[$k] ?? null: the value stored under `k`, if any. */
  function Lookup<V>(a: PhpArray<V>, k: Key): (r: Option<V>)
    ensures r.None? <==> k !in KeysOf(a)
    ensures forall i | 0 <= i < |a| && a[i].0 == k :: r == Some(a[i].1)
    decreases |a|
  {
    if a == [] then None
    else if a[|a| - 1].0 == k then Some(a[|a| - 1].1)
    else
      var r := Lookup(a[..|a| - 1], k);
      assert KeysOf(a) == KeysOf(a[..|a| - 1]) + [a[|a| - 1].0];
      r
  }

  /**
   * `$a[$k] = $v`: an existing key keeps its position and takes the new value; a new key is
   * appended at the end.
   */
  function Assign<V>(a: PhpArray<V>, k: Key, v: V): (r: PhpArray<V>)
    ensures KeysOf(r) == if k in KeysOf(a) then KeysOf(a) else KeysOf(a) + [k]
    ensures k !in KeysOf(a) ==> r == a + [(k, v)]
    ensures forall i | 0 <= i < |a| :: r[i] == if a[i].0 == k then (k, v) else a[i]
  {
    if k in KeysOf(a) then
      seq(|a|, i requires 0 <= i < |a| => if a[i].0 == k then (k, v) else a[i])
    else
      a + [(k, v)]
  }

  lemma AssignLookup<V>(a: PhpArray<V>, k: Key, v: V, k': Key)
    ensures Lookup(Assign(a, k, v), k') == if k' == k then Some(v) else Lookup(a, k')
  {
    var r := Assign(a, k, v);
    if k' == k {
      if k !in KeysOf(a) {
        assert r[|a|] == (k, v);
      } else {
        var i :| 0 <= i < |a| && a[i].0 == k;
        assert r[i] == (k, v);
      }
    } else if k' in KeysOf(a) {
      var i :| 0 <= i < |a| && a[i].0 == k';
      assert r[i] == a[i];
    } else {
      assert k' !in KeysOf(r);
    }
  }

  /** Writes the entries of `ps` one after another into an empty array (array_combine, keyBy). */
  function AssignAll<V>(ps: seq<(Key, V)>): (r: PhpArray<V>)
    ensures |r| <= |ps|
  {
    if ps == [] then []
    else
      var prefix := ps[..|ps| - 1];
      Assign(AssignAll(prefix), ps[|ps| - 1].0, ps[|ps| - 1].1)
  }

  /** Writing all of `ps` uses exactly the keys written. */
  lemma {:induction false} AssignAllKeys<V>(ps: seq<(Key, V)>)
    ensures forall k :: k in KeysOf(AssignAll(ps)) <==> k in KeysOf(ps)
  {
    if ps != [] {
      var prefix := ps[..|ps| - 1];
      AssignAllKeys(prefix);
      assert KeysOf(ps) == KeysOf(prefix) + [ps[|ps| - 1].0];
    }
  }

  /** After writing all of `ps`, a key holds the value of its LAST write. */
  lemma {:induction false} AssignAllLastWins<V>(ps: seq<(Key, V)>, j: nat)
    requires j < |ps|
    requires forall i | j < i < |ps| :: ps[i].0 != ps[j].0
    ensures Lookup(AssignAll(ps), ps[j].0) == Some(ps[j].1)
  {
    var n := |ps| - 1;
    var prefix := ps[..n];
    var before := AssignAll(prefix);
    assert AssignAll(ps) == Assign(before, ps[n].0, ps[n].1);
    AssignLookup(before, ps[n].0, ps[n].1, ps[j].0);
    if j < n {
      assert ps[n].0 != ps[j].0;
      assert prefix[j] == ps[j];
      assert forall i | j < i < |prefix| :: prefix[i] == ps[i];
      AssignAllLastWins(prefix, j);
      assert Lookup(before, ps[j].0) == Some(ps[j].1);
    }
  }

  /** Appending an entry whose key is not yet used keeps the keys distinct. */
  lemma SnocDistinct<V>(a: PhpArray<V>, e: (Key, V))
    requires forall x | x in a :: x.0 != e.0
    ensures DistinctKeys(a + [e])
  {
    var b := a + [e];
    forall i, j | 0 <= i < j < |b|
      ensures b[i].0 != b[j].0
    {
      if j == |a| {
        assert b[i] in a;
      }
    }
  }

  /** A prefix of an array has distinct keys too. */
  lemma TakeDistinct<V>(a: PhpArray<V>, k: nat)
    requires k <= |a|
    ensures DistinctKeys(a[..k])
  {
  }

  /** The last key of an array is used nowhere before it. */
  lemma LastKeyFresh<V>(a: PhpArray<V>)
    requires a != []
    ensures forall x | x in a[..|a| - 1] :: x.0 != a[|a| - 1].0
  {
    forall x | x in a[..|a| - 1]
      ensures x.0 != a[|a| - 1].0
    {
      var i :| 0 <= i < |a| - 1 && a[..|a| - 1][i] == x;
      assert a[i] == x;
    }
  }

  /** Array of the entries of `a` whose value satisfies `p` (array_filter). */
  function ArrayFilter<V>(a: PhpArray<V>, p: V -> bool): (r: PhpArray<V>)
    ensures forall x | x in r :: x in a && p(x.1)
    ensures forall x | x in a && p(x.1) :: x in r
    ensures Subseq(r, a)
    decreases |a|
  {
    if a == [] then []
    else
      var prefix := a[..|a| - 1];
      var rest := ArrayFilter(prefix, p);
      FilterStep(a, p, rest);
      if p(a[|a| - 1].1) then rest + [a[|a| - 1]] else rest
  }

  /** One step of array_filter: the last entry is kept exactly when it passes. */
  lemma FilterStep<V>(a: PhpArray<V>, p: V -> bool, rest: PhpArray<V>)
    requires a != []
    requires forall x | x in rest :: x in a[..|a| - 1] && p(x.1)
    requires forall x | x in a[..|a| - 1] && p(x.1) :: x in rest
    requires Subseq(rest, a[..|a| - 1])
    ensures var last := a[|a| - 1];
            && (p(last.1) ==> DistinctKeys(rest + [last]))
            && var r := if p(last.1) then rest + [last] else rest;
            && (forall x | x in r :: x in a && p(x.1))
            && (forall x | x in a && p(x.1) :: x in r)
            && Subseq(r, a)
  {
    var prefix, last := a[..|a| - 1], a[|a| - 1];
    assert a == prefix + [last];
    SubseqExtend(rest, prefix, last);
    LastKeyFresh(a);
    if p(last.1) {
      SnocDistinct(rest, last);
    }
  }

  /** array_filter depends only on which values pass. */
  lemma {:induction false} FilterExt<V>(a: PhpArray<V>, p: V -> bool, q: V -> bool)
    requires forall i | 0 <= i < |a| :: p(a[i].1) == q(a[i].1)
    ensures ArrayFilter(a, p) == ArrayFilter(a, q)
    decreases |a|
  {
    if a != [] {
      FilterExt(a[..|a| - 1], p, q);
    }
  }

  /** Filtering one more entry appends it exactly when it passes. */
  lemma FilterSnoc<V>(a: PhpArray<V>, p: V -> bool, i: nat)
    requires i < |a|
    ensures ArrayFilter(a[..i + 1], p) == ArrayFilter(a[..i], p) + (if p(a[i].1) then [a[i]] else [])
  {
    TakeTake(a, i, i + 1);
  }

  /** array_filter over the first `i` entries of `a`: what a loop over `a` has kept after `i` steps. */
  function FilterUpTo<V>(a: PhpArray<V>, p: V -> bool, i: nat): PhpArray<V>
    requires i <= |a|
  {
    TakeDistinct(a, i);
    ArrayFilter(a[..i], p)
  }

  /** One more step of such a loop keeps the next entry exactly when it passes. */
  lemma FilterUpToSnoc<V>(a: PhpArray<V>, p: V -> bool, i: nat)
    requires i < |a|
    ensures FilterUpTo(a, p, i + 1) == FilterUpTo(a, p, i) + (if p(a[i].1) then [a[i]] else [])
  {
    FilterSnoc(a, p, i);
  }

  /** After the last step the loop has kept what array_filter keeps. */
  lemma FilterUpToAll<V>(a: PhpArray<V>, p: V -> bool)
    ensures FilterUpTo(a, p, |a|) == ArrayFilter(a, p)
  {
    assert a[..|a|] == a;
  }

  /** array_filter keeps every entry when every value passes. */
  lemma {:induction false} FilterAll<V>(a: PhpArray<V>, p: V -> bool)
    requires forall i | 0 <= i < |a| :: p(a[i].1)
    ensures ArrayFilter(a, p) == a
    decreases |a|
  {
    if a != [] {
      FilterAll(a[..|a| - 1], p);
    }
  }

  /** A prefix of a prefix is a prefix of the longer sequence. */
  lemma PrefixOfSnoc<T>(front: seq<T>, mid: seq<T>, ext: seq<T>)
    requires |front| <= |mid| && mid[..|front|] == front
    ensures |front| <= |mid + ext| && (mid + ext)[..|front|] == front
  {
    assert (mid + ext)[..|front|] == mid[..|front|];
  }

  /** Filtering a longer prefix only adds entries at the end. */
  lemma {:induction false} FilterPrefixUpTo<V>(a: PhpArray<V>, p: V -> bool, i: nat, j: nat)
    requires i <= j <= |a|
    ensures |ArrayFilter(a[..i], p)| <= |ArrayFilter(a[..j], p)|
    ensures ArrayFilter(a[..j], p)[..|ArrayFilter(a[..i], p)|] == ArrayFilter(a[..i], p)
    decreases j
  {
    if i < j {
      FilterPrefixUpTo(a, p, i, j - 1);
      FilterSnoc(a, p, j - 1);
      TakeDistinct(a, i);
      TakeDistinct(a, j - 1);
      PrefixOfSnoc(ArrayFilter(a[..i], p), ArrayFilter(a[..j - 1], p), if p(a[j - 1].1) then [a[j - 1]] else []);
    }
  }

  /**
   * Filtering a prefix gives a prefix of the filtered array, and the next surviving entry
   * comes right after it.
   */
  lemma FilterPrefix<V>(a: PhpArray<V>, p: V -> bool, i: nat)
    requires i <= |a|
    ensures |ArrayFilter(a[..i], p)| <= |ArrayFilter(a, p)|
    ensures ArrayFilter(a, p)[..|ArrayFilter(a[..i], p)|] == ArrayFilter(a[..i], p)
    ensures i < |a| && p(a[i].1) ==> |ArrayFilter(a[..i], p)| < |ArrayFilter(a, p)|
                                     && ArrayFilter(a, p)[|ArrayFilter(a[..i], p)|] == a[i]
  {
    assert a[..|a|] == a;
    if i < |a| {
      FilterSnoc(a, p, i);
      FilterPrefixUpTo(a, p, i + 1, |a|);
    } else {
      FilterPrefixUpTo(a, p, i, |a|);
    }
  }

  lemma {:induction false} SubseqTrans<T>(a: seq<T>, b: seq<T>, c: seq<T>)
    requires Subseq(a, b) && Subseq(b, c)
    ensures Subseq(a, c)
    decreases |c|
  {
    if a != [] {
      var a', b', c' := a[..|a| - 1], b[..|b| - 1], c[..|c| - 1];
      if b[|b| - 1] == c[|c| - 1] && Subseq(b', c') {
        if a[|a| - 1] == b[|b| - 1] && Subseq(a', b') {
          SubseqTrans(a', b', c');
        } else {
          SubseqTrans(a, b', c');
        }
      } else {
        SubseqTrans(a, b, c');
      }
    }
  }

  /** array_chunk($a, $size, true): consecutive runs of at most `size` entries, keys kept. */
  function ArrayChunk<V>(a: PhpArray<V>, size: nat): (chunks: seq<PhpArray<V>>)
    requires size >= 1
    ensures forall i | 0 <= i < |chunks| :: 0 < |chunks[i]| <= size
    ensures forall i | 0 <= i < |chunks| - 1 :: |chunks[i]| == size
    ensures Concat(chunks) == a
    decreases |a|
  {
    if a == [] then []
    else if |a| <= size then
      assert Concat([a]) == a + Concat([]);
      [a]
    else
      var rest := ArrayChunk(a[size..], size);
      var chunks := [a[..size]] + rest;
      assert chunks[1..] == rest;
      assert a == a[..size] + a[size..];
      chunks
  }

  /** The entries of the arrays one after another. */
  function Concat<T>(ss: seq<seq<T>>): seq<T> {
    if ss == [] then [] else ss[0] + Concat(ss[1..])
  }

  /** The next key `$a[] = $v` uses: one past the greatest integer key, 0 when there is none. */
  function NextIndex<V>(a: seq<(Key, V)>): (n: nat)
    ensures forall i | 0 <= i < |a| && a[i].0.IntKey? :: a[i].0.i < n
  {
    if a == [] then 0
    else
      var m := NextIndex(a[..|a| - 1]);
      var last := a[|a| - 1].0;
      if last.IntKey? && last.i >= m then last.i + 1 else m
  }

  /** `k` is an integer key above every integer key of `a`, so no entry of `a` has it. */
  predicate AboveIntKeys<V>(a: seq<(Key, V)>, k: Key) {
    k.IntKey? && forall i | 0 <= i < |a| && a[i].0.IntKey? :: a[i].0.i < k.i
  }

  /**
   * The key `$a[] = $v` uses is one past the greatest integer key: it is above every integer
   * key, and unless it is 0 the key just below it is present.
   */
  lemma {:induction false} NextIndexExact<V>(a: seq<(Key, V)>)
    ensures forall i | 0 <= i < |a| && a[i].0.IntKey? :: a[i].0.i < NextIndex(a)
    ensures NextIndex(a) == 0 || exists i | 0 <= i < |a| :: a[i].0 == IntKey(NextIndex(a) - 1)
  {
    if a != [] {
      var prefix := a[..|a| - 1];
      NextIndexExact(prefix);
      if NextIndex(a) != 0 && NextIndex(a) == NextIndex(prefix) {
        var i :| 0 <= i < |prefix| && prefix[i].0 == IntKey(NextIndex(prefix) - 1);
        assert a[i] == prefix[i];
      }
    }
  }

  /** `$a[] = $v`: the entries, then `v` under a new integer key above every integer key present. */
  function Append<V>(a: PhpArray<V>, v: V): (r: PhpArray<V>)
    ensures |r| == |a| + 1 && r[..|a|] == a && r[|a|].1 == v
    ensures AboveIntKeys(a, r[|a|].0)
  {
    a + [(IntKey(NextIndex(a)), v)]
  }

  /** One entry of array_merge: integer keys are renumbered, string keys are written in place. */
  function MergeEntry<V>(acc: PhpArray<V>, entry: (Key, V)): PhpArray<V> {
    if entry.0.IntKey? then Append(acc, entry.1) else Assign(acc, entry.0, entry.1)
  }

  function MergeInto<V>(acc: PhpArray<V>, b: seq<(Key, V)>): PhpArray<V>
    decreases |b|
  {
    if b == [] then acc else MergeInto(MergeEntry(acc, b[0]), b[1..])
  }

  function MergeAll<V>(acc: PhpArray<V>, arrays: seq<PhpArray<V>>): PhpArray<V>
    decreases |arrays|
  {
    if arrays == [] then acc else MergeAll(MergeInto(acc, arrays[0]), arrays[1..])
  }

  /**
   * array_merge(...$arrays). When every array has integer keys only, the result is the list
   * of all their values, one array after another.
   */
  function ArrayMerge<V>(arrays: seq<PhpArray<V>>): (r: PhpArray<V>)
    ensures (forall i | 0 <= i < |arrays| :: IntKeyed(arrays[i])) ==> r == List(ConcatValues(arrays))
  {
    MergeOfIntKeyed(arrays);
    MergeAll([], arrays)
  }

  lemma {:induction false} NextIndexOfList<V>(vs: seq<V>)
    ensures NextIndex(List(vs)) == |vs|
  {
    if vs != [] {
      var n := |vs| - 1;
      assert List(vs)[..n] == List(vs[..n]);
      NextIndexOfList(vs[..n]);
    }
  }

  lemma AppendToList<V>(vs: seq<V>, v: V)
    ensures Append(List(vs), v) == List(vs + [v])
  {
    NextIndexOfList(vs);
    assert List(vs) + [(IntKey(|vs|), v)] == List(vs + [v]);
  }

  lemma ValuesOfCons<V>(b: seq<(Key, V)>)
    requires b != []
    ensures ValuesOf(b) == [b[0].1] + ValuesOf(b[1..])
  {
  }

  /** Merging an integer-keyed entry into a list appends its value. */
  lemma MergeIntoListStep<V>(vs: seq<V>, b: seq<(Key, V)>)
    requires b != [] && b[0].0.IntKey?
    ensures MergeInto(List(vs), b) == MergeInto(List(vs + [b[0].1]), b[1..])
  {
    AppendToList(vs, b[0].1);
  }

  lemma IntKeyedTail<V>(b: seq<(Key, V)>)
    requires b != [] && IntKeyed(b)
    ensures b[0].0.IntKey? && IntKeyed(b[1..])
  {
    forall i | 0 <= i < |b[1..]|
      ensures b[1..][i].0.IntKey?
    {
      assert b[1..][i] == b[i + 1];
    }
  }

  lemma {:induction false} MergeIntoList<V>(vs: seq<V>, b: seq<(Key, V)>)
    requires IntKeyed(b)
    ensures MergeInto(List(vs), b) == List(vs + ValuesOf(b))
    decreases |b|
  {
    if b == [] {
      assert ValuesOf(b) == [];
      AppendEmpty(vs);
    } else {
      IntKeyedTail(b);
      MergeIntoListStep(vs, b);
      MergeIntoList(vs + [b[0].1], b[1..]);
      ValuesOfCons(b);
      AppendAssoc(vs, [b[0].1], ValuesOf(b[1..]));
    }
  }

  lemma {:induction false} MergeAllList<V>(vs: seq<V>, arrays: seq<PhpArray<V>>)
    requires forall i | 0 <= i < |arrays| :: IntKeyed(arrays[i])
    ensures MergeAll(List(vs), arrays) == List(vs + ConcatValues(arrays))
    decreases |arrays|
  {
    if arrays == [] {
      AppendEmpty(vs);
    } else {
      var vs' := vs + ValuesOf(arrays[0]);
      MergeIntoList(vs, arrays[0]);
      assert MergeAll(List(vs), arrays) == MergeAll(List(vs'), arrays[1..]);
      assert forall i | 0 <= i < |arrays[1..]| :: IntKeyed(arrays[1..][i]) by {
        forall i | 0 <= i < |arrays[1..]|
          ensures IntKeyed(arrays[1..][i])
        {
          assert arrays[1..][i] == arrays[i + 1];
        }
      }
      MergeAllList(vs', arrays[1..]);
      AppendAssoc(vs, ValuesOf(arrays[0]), ConcatValues(arrays[1..]));
    }
  }

  /** The values of the arrays one after another. */
  function ConcatValues<V>(arrays: seq<PhpArray<V>>): seq<V> {
    if arrays == [] then [] else ValuesOf(arrays[0]) + ConcatValues(arrays[1..])
  }

  /**
   * When every merged array has only integer keys, array_merge is their values one after
   * another, renumbered from 0: nothing is overwritten.
   */
  lemma MergeOfIntKeyed<V>(arrays: seq<PhpArray<V>>)
    ensures (forall i | 0 <= i < |arrays| :: IntKeyed(arrays[i])) ==> MergeAll([], arrays) == List(ConcatValues(arrays))
  {
    if forall i | 0 <= i < |arrays| :: IntKeyed(arrays[i]) {
      assert List<V>([]) == [];
      MergeAllList([], arrays);
      AppendEmpty(ConcatValues(arrays));
    }
  }

  /** array_unique: the first entry of each value, with its key, in order. */
  function ArrayUnique<V(==)>(a: PhpArray<V>): (r: PhpArray<V>)
    ensures forall x | x in r :: x in a
    decreases |a|
  {
    if a == [] then []
    else
      var n := |a| - 1;
      var u := ArrayUnique(a[..n]);
      if a[n].1 in ValuesOf(a[..n]) then u
      else
        assert forall x | x in u :: x in a[..n] && x.0 != a[n].0;
        u + [a[n]]
  }

  /** array_unique keeps its entries in their original order. */
  lemma {:induction false} UniqueIsSubseq<V>(a: PhpArray<V>)
    ensures Subseq(ArrayUnique(a), a)
    decreases |a|
  {
    if a != [] {
      var n := |a| - 1;
      UniqueIsSubseq(a[..n]);
      assert a == a[..n] + [a[n]];
      SubseqExtend(ArrayUnique(a[..n]), a[..n], a[n]);
    }
  }

  /** An entry survives array_unique exactly when no earlier entry holds the same value. */
  lemma {:induction false} UniqueKeepsFirst<V>(a: PhpArray<V>, i: nat)
    requires i < |a|
    ensures a[i] in ArrayUnique(a) <==> a[i].1 !in ValuesOf(a[..i])
    decreases |a|
  {
    var n := |a| - 1;
    var u := ArrayUnique(a[..n]);
    if i < n {
      UniqueKeepsFirst(a[..n], i);
      assert a[..n][..i] == a[..i];
      assert a[i] != a[n];
    } else {
      assert a[..n] == a[..i];
      if a[n].1 !in ValuesOf(a[..n]) {
        assert ArrayUnique(a) == u + [a[n]];
      } else {
        assert forall x | x in u :: x in a[..n];
        assert a[n] !in a[..n];
      }
    }
  }

  /** No value occurs twice after array_unique. */
  lemma {:induction false} UniqueValuesDistinct<V>(a: PhpArray<V>)
    ensures forall i, j | 0 <= i < j < |ArrayUnique(a)| :: ArrayUnique(a)[i].1 != ArrayUnique(a)[j].1
    decreases |a|
  {
    if a != [] {
      var n := |a| - 1;
      var u := ArrayUnique(a[..n]);
      UniqueValuesDistinct(a[..n]);
      if a[n].1 !in ValuesOf(a[..n]) {
        forall x | x in u ensures x.1 != a[n].1 {
          assert x in a[..n];
          var k :| 0 <= k < n && a[..n][k] == x;
          assert ValuesOf(a[..n])[k] == x.1;
        }
      }
    }
  }

  /** Every value of the input still occurs after array_unique. */
  lemma {:induction false} UniqueKeepsValues<V>(a: PhpArray<V>, i: nat)
    requires i < |a|
    ensures a[i].1 in ValuesOf(ArrayUnique(a))
    decreases i
  {
    if a[i].1 in ValuesOf(a[..i]) {
      var k :| 0 <= k < i && ValuesOf(a[..i])[k] == a[i].1;
      UniqueKeepsValues(a, k);
    } else {
      UniqueKeepsFirst(a, i);
      var r := ArrayUnique(a);
      var k :| 0 <= k < |r| && r[k] == a[i];
      assert ValuesOf(r)[k] == a[i].1;
    }
  }
}
