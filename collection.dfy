/**
 * The Collection wrapper: an ordered PHP array of items, never changed after construction.
 * Every transformation returns a new Collection; `each` and `whenNotEmpty` return the same one.
 * Callbacks with side effects (`each`, `whenNotEmpty`) are modelled by the calls they receive.
 */
module Collections {
  import opened Wrappers
  import opened Php
  import Strings

  /** PHP truthiness of a string: "" and "0" are falsy. */
  predicate Truthy(s: string) {
    s != "" && s != "0"
  }

  predicate IsSome<V>(o: Option<V>) {
    o.Some?
  }

  /** Wraps each array in a Collection. */
  function Wrap<V>(arrays: seq<PhpArray<V>>): (cs: seq<Collection<V>>)
    ensures |cs| == |arrays| && forall i | 0 <= i < |arrays| :: cs[i] == Collection(arrays[i])
  {
    seq(|arrays|, i requires 0 <= i < |arrays| => Collection(arrays[i]))
  }

  /** The item arrays of a collection of collections, in order. */
  function Unwrap<V>(a: seq<(Key, Collection<V>)>): (arrays: seq<PhpArray<V>>)
    ensures |arrays| == |a| && forall i | 0 <= i < |a| :: arrays[i] == a[i].1.items
  {
    seq(|a|, i requires 0 <= i < |a| => a[i].1.items)
  }

  /** The (value, key) pairs handed to a callback, one per entry, in order. */
  function Calls<V>(a: seq<(Key, V)>): (calls: seq<(V, Key)>)
    ensures |calls| == |a| && forall i | 0 <= i < |a| :: calls[i] == (a[i].1, a[i].0)
  {
    seq(|a|, i requires 0 <= i < |a| => (a[i].1, a[i].0))
  }

  /** The entries written by keyBy: each item under its field's key. */
  function FieldPairs<V>(a: seq<(Key, V)>, field: V -> Key): (ps: seq<(Key, V)>)
    ensures |ps| == |a| && forall i | 0 <= i < |a| :: ps[i] == (field(a[i].1), a[i].1)
  {
    seq(|a|, i requires 0 <= i < |a| => (field(a[i].1), a[i].1))
  }

  datatype Collection<V> = Collection(items: PhpArray<V>) {

    /** count() */
    function Count(): (n: nat)
      ensures n == |items|
    {
      |items|
    }

    /** toArray() */
    function ToArray(): (a: PhpArray<V>)
      ensures a == items
    {
      items
    }

    /**
     * The result of chunk($size): the runs of array_chunk (keys kept) under the keys 0..k-1;
     * every run is non-empty, at most `size` long and all but the last exactly `size` long,
     * and the runs one after another are the items.
     */
    function Chunked(size: nat): (r: Collection<Collection<V>>)
      requires size >= 1
      ensures forall i | 0 <= i < |r.items| :: r.items[i].0 == IntKey(i)
      ensures forall i | 0 <= i < |r.items| :: 0 < r.items[i].1.Count() <= size
      ensures forall i | 0 <= i < |r.items| - 1 :: r.items[i].1.Count() == size
      ensures Concat(Unwrap(r.items)) == items
    {
      var arrays := ArrayChunk(items, size);
      var r := Collection(List(Wrap(arrays)));
      assert Unwrap(r.items) == arrays;
      r
    }

    /** chunk($size): the loop that wraps each run of array_chunk in a new Collection. */
    method Chunk(size: nat) returns (r: Collection<Collection<V>>)
      requires size >= 1
      ensures r == Chunked(size)
    {
      var arrays := ArrayChunk(items, size);
      var chunks: PhpArray<Collection<V>> := [];
      var i := 0;
      while i < |arrays|
        invariant 0 <= i <= |arrays|
        invariant chunks == List(Wrap(arrays[..i]))
      {
        AppendToList(Wrap(arrays[..i]), Collection(arrays[i]));
        assert Wrap(arrays[..i + 1]) == Wrap(arrays[..i]) + [Collection(arrays[i])];
        chunks := Append(chunks, Collection(arrays[i]));
        i := i + 1;
      }
      assert arrays[..i] == arrays;
      r := Collection(chunks);
    }

    /**
     * filter($p): exactly the entries whose item satisfies `p`, with their keys, in their
     * original order (no re-indexing).
     */
    function Filter(p: V -> bool): (r: Collection<V>)
      ensures forall x | x in r.items :: x in items && p(x.1)
      ensures forall x | x in items && p(x.1) :: x in r.items
      ensures Subseq(r.items, items)
    {
      Collection(ArrayFilter(items, p))
    }

    /** keys(): the keys as a list, in order. */
    function Keys(): (r: Collection<Key>)
      ensures |r.items| == |items|
      ensures forall i | 0 <= i < |items| :: r.items[i] == (IntKey(i), items[i].0)
    {
      Collection(List(KeysOf(items)))
    }

    /** values(): the items as a list, re-indexed from 0, in order. */
    function Values(): (r: Collection<V>)
      ensures |r.items| == |items|
      ensures forall i | 0 <= i < |items| :: r.items[i] == (IntKey(i), items[i].1)
    {
      Collection(List(ValuesOf(items)))
    }

    /**
     * The result of keyBy($field): every item written under its field's key, so a key holds
     * the last item with that field value; no more entries than items.
     */
    function KeyedBy(field: V -> Key): (r: Collection<V>)
      ensures r.Count() <= Count()
      ensures forall k :: k in KeysOf(r.items) <==> k in KeysOf(FieldPairs(items, field))
    {
      AssignAllKeys(FieldPairs(items, field));
      Collection(AssignAll(FieldPairs(items, field)))
    }

    /** keyBy($field): the foreach loop writing `$results[$item[$field]] = $item`. */
    method KeyBy(field: V -> Key) returns (r: Collection<V>)
      ensures r == KeyedBy(field)
    {
      var results: PhpArray<V> := [];
      var i := 0;
      while i < |items|
        invariant 0 <= i <= |items|
        invariant results == AssignAll(FieldPairs(items[..i], field))
      {
        var pairs := FieldPairs(items[..i + 1], field);
        assert pairs[..i] == FieldPairs(items[..i], field);
        results := Assign(results, field(items[i].1), items[i].1);
        i := i + 1;
      }
      assert items[..i] == items;
      r := Collection(results);
    }

    /** get($key, $default): the item stored under the string key, or `default`. */
    function Get(key: string, default: Option<V>): (r: Option<V>)
      ensures forall i | 0 <= i < |items| && items[i].0 == StrKey(key) :: r == Some(items[i].1)
      ensures StrKey(key) !in KeysOf(items) ==> r == default
    {
      match Lookup(items, StrKey(key))
      case Some(v) => Some(v)
      case None => default
    }

    /**
     * The result of where($field, $value, $default): the first item whose field is `value`,
     * or `default` when there is none.
     */
    function FirstWhere<F(==)>(field: V -> F, value: F, default: Option<V>): (r: Option<V>)
      ensures forall i | 0 <= i < |items| && field(items[i].1) == value
                && (forall j | 0 <= j < i :: field(items[j].1) != value) :: r == Some(items[i].1)
      ensures (forall i | 0 <= i < |items| :: field(items[i].1) != value) ==> r == default
      ensures (exists i | 0 <= i < |items| :: field(items[i].1) == value) ==> r.Some? && field(r.value) == value
    {
      FirstWhereFrom(field, value, default, 0)
    }

    function FirstWhereFrom<F(==)>(field: V -> F, value: F, default: Option<V>, from: nat): (r: Option<V>)
      requires from <= |items|
      ensures forall i | from <= i < |items| && field(items[i].1) == value
                && (forall j | from <= j < i :: field(items[j].1) != value) :: r == Some(items[i].1)
      ensures (forall i | from <= i < |items| :: field(items[i].1) != value) ==> r == default
      ensures (exists i | from <= i < |items| :: field(items[i].1) == value) ==> r.Some? && field(r.value) == value
      decreases |items| - from
    {
      if from == |items| then default
      else if field(items[from].1) == value then Some(items[from].1)
      else FirstWhereFrom(field, value, default, from + 1)
    }

    /** where($field, $value, $default): the foreach loop that returns the first match. */
    method Where<F(==)>(field: V -> F, value: F, default: Option<V>) returns (r: Option<V>)
      ensures r == FirstWhere(field, value, default)
    {
      var i := 0;
      while i < |items|
        invariant 0 <= i <= |items|
        invariant FirstWhereFrom(field, value, default, i) == FirstWhere(field, value, default)
      {
        if field(items[i].1) == value {
          assert FirstWhereFrom(field, value, default, i) == Some(items[i].1);
          return Some(items[i].1);
        }
        assert FirstWhereFrom(field, value, default, i) == FirstWhereFrom(field, value, default, i + 1);
        i := i + 1;
      }
      assert FirstWhereFrom(field, value, default, i) == default;
      return default;
    }

    /**
     * each($callable): calls the callable once per entry with (item, key), in order, and
     * returns the same collection.
     */
    method Each() returns (self: Collection<V>, calls: seq<(V, Key)>)
      ensures self == this
      ensures calls == Calls(items)
    {
      calls := [];
      var i := 0;
      while i < |items|
        invariant 0 <= i <= |items|
        invariant calls == Calls(items[..i])
      {
        calls := calls + [(items[i].1, items[i].0)];
        i := i + 1;
      }
      assert items[..i] == items;
      self := this;
    }

    /** map($f): the same keys in the same order, each item replaced by f(item, key). */
    function Map<W>(f: (V, Key) -> W): (r: Collection<W>)
      ensures KeysOf(r.items) == KeysOf(items)
      ensures forall i | 0 <= i < |items| :: r.items[i].1 == f(items[i].1, items[i].0)
    {
      var mapped := seq(|items|, i requires 0 <= i < |items| => (items[i].0, f(items[i].1, items[i].0)));
      assert forall i | 0 <= i < |items| :: mapped[i].0 == items[i].0;
      Collection(mapped)
    }

    /**
     * whenNotEmpty($callable): calls the callable once with count() exactly when there are
     * items (`call` is that argument), and returns the same collection.
     */
    method WhenNotEmpty() returns (self: Collection<V>, call: Option<nat>)
      ensures self == this
      ensures call.Some? <==> Count() > 0
      ensures call.Some? ==> call.value == Count()
    {
      var count := Count();
      call := None;
      if count > 0 {
        call := Some(count);
      }
      self := this;
    }
  }

  /**
   * flatten(): array_merge over the items. Integer keys are renumbered and a later string key
   * overwrites an earlier one; when every item has integer keys only, the result is all
   * their values, one array after another, as a list.
   */
  function Flatten<W>(c: Collection<PhpArray<W>>): (r: Collection<W>)
    ensures (forall i | 0 <= i < |c.items| :: IntKeyed(c.items[i].1))
              ==> r.items == List(ConcatValues(ValuesOf(c.items)))
  {
    Collection(ArrayMerge(ValuesOf(c.items)))
  }

  /** unique(): the first entry of each distinct item, with its key, in order. */
  function Unique<V(==)>(c: Collection<V>): (r: Collection<V>)
    ensures Subseq(r.items, c.items)
    ensures forall x | x in r.items :: x in c.items
    ensures forall i | 0 <= i < |c.items| :: c.items[i] in r.items <==> c.items[i].1 !in ValuesOf(c.items[..i])
    ensures forall i, j | 0 <= i < j < |r.items| :: r.items[i].1 != r.items[j].1
  {
    UniqueIsSubseq(c.items);
    UniqueValuesDistinct(c.items);
    forall i | 0 <= i < |c.items|
      ensures c.items[i] in ArrayUnique(c.items) <==> c.items[i].1 !in ValuesOf(c.items[..i])
    {
      UniqueKeepsFirst(c.items, i);
    }
    Collection(ArrayUnique(c.items))
  }

  /**
   * filter() with no callable, over items that are null or non-empty arrays: the non-null
   * items with their keys, in order (array_filter on the same items keeps exactly these).
   */
  function FilterNulls<V>(c: Collection<Option<V>>): (r: Collection<V>)
    ensures |r.items| == |ArrayFilter(c.items, IsSome)|
    ensures forall i | 0 <= i < |r.items| :: ArrayFilter(c.items, IsSome)[i] == (r.items[i].0, Some(r.items[i].1))
  {
    var kept := ArrayFilter(c.items, IsSome);
    var unwrapped := seq(|kept|, i requires 0 <= i < |kept| => (kept[i].0, kept[i].1.value));
    assert forall i | 0 <= i < |kept| :: unwrapped[i].0 == kept[i].0;
    Collection(unwrapped)
  }

  /** The entries filter() keeps are exactly the non-null ones, unwrapped, with their keys. */
  lemma FilterNullsMembers<V>(c: Collection<Option<V>>)
    ensures forall x | x in FilterNulls(c).items :: (x.0, Some(x.1)) in c.items
    ensures forall i | 0 <= i < |c.items| && c.items[i].1.Some? ::
              (c.items[i].0, c.items[i].1.value) in FilterNulls(c).items
  {
    var kept, r := ArrayFilter(c.items, IsSome), FilterNulls(c).items;
    forall x | x in r
      ensures (x.0, Some(x.1)) in c.items
    {
      var j :| 0 <= j < |r| && r[j] == x;
      assert kept[j] in kept;
    }
    forall i | 0 <= i < |c.items| && c.items[i].1.Some?
      ensures (c.items[i].0, c.items[i].1.value) in r
    {
      assert c.items[i] in kept;
      var j :| 0 <= j < |kept| && kept[j] == c.items[i];
      assert r[j] == (c.items[i].0, c.items[i].1.value);
    }
  }

  /**
   * implode($sep): for any separator, the items in order with `sep` between consecutive ones
   * (`""` for no items); with a one-character separator no item holds, explode undoes it.
   */
  function Implode(c: Collection<string>, sep: string): (r: string)
    ensures c.items == [] ==> r == ""
    ensures c.items != [] ==> Strings.JoinedAs(r, ValuesOf(c.items), sep)
    ensures |sep| == 1 && c.items != [] && (forall i | 0 <= i < |c.items| :: sep[0] !in c.items[i].1)
            ==> Strings.Split(r, sep[0]) == ValuesOf(c.items)
  {
    ImplodeExplode(ValuesOf(c.items), sep);
    Strings.JoinLayout(ValuesOf(c.items), sep);
    Strings.Join(ValuesOf(c.items), sep)
  }

  /** The implode example: ['foo', 'bar'] imploded with ', ', then a full stop, is "foo, bar.". */
  lemma ImplodeFooBar()
    ensures Implode(Collection([(IntKey(0), "foo"), (IntKey(1), "bar")]), ", ") + "." == "foo, bar."
  {
  }

  /** Exploding a join on a one-character separator that no item holds gives back the items. */
  lemma ImplodeExplode(items: seq<string>, sep: string)
    ensures |sep| == 1 && items != [] && (forall i | 0 <= i < |items| :: sep[0] !in items[i])
            ==> Strings.Split(Strings.Join(items, sep), sep[0]) == items
  {
    if |sep| == 1 && items != [] && (forall i | 0 <= i < |items| :: sep[0] !in items[i]) {
      assert sep == [sep[0]];
      Strings.SplitJoin(items, sep[0]);
    }
  }

  /** The entries of a list-keyed result of `keyBy` hold the last item with each field value. */
  lemma KeyedByLastWins<V>(c: Collection<V>, field: V -> Key, j: nat)
    requires j < |c.items|
    requires forall i | j < i < |c.items| :: field(c.items[i].1) != field(c.items[j].1)
    ensures Lookup(c.KeyedBy(field).items, field(c.items[j].1)) == Some(c.items[j].1)
  {
    AssignAllLastWins(FieldPairs(c.items, field), j);
  }
}
