/** The helper functions `collect` and `tap`. */
module Functions {
  import opened Wrappers
  import opened Php
  import opened Collections

  /** collect($items): a new Collection over the array, which toArray() gives back unchanged. */
  function Collect<V>(items: PhpArray<V>): (c: Collection<V>)
    ensures c.ToArray() == items
    ensures c.Count() == |items|
  {
    Collection(items)
  }

  /** A mutable value handed to `tap`; `contents` is its state. */
  class Box<T> {
    var contents: T

    constructor (contents: T)
      ensures this.contents == contents
    {
      this.contents := contents;
    }
  }

  /**
   * tap($value, $callback): when a callback is given, runs it once on the object (the callback
   * is modelled by its effect on the object's state), then returns the same object.
   */
  method Tap<T>(value: Box<T>, callback: Option<T -> T>) returns (r: Box<T>)
    modifies value
    ensures r == value
    ensures value.contents == if callback.Some? then callback.value(old(value.contents)) else old(value.contents)
  {
    if callback.Some? {
      value.contents := callback.value(value.contents);
    }
    r := value;
  }

  /** A client: tapping with an incrementing callback increments once; tapping without one changes nothing. */
  method TapIncrementsOnce() {
    var counter := new Box(1);
    var r := Tap(counter, Some(x => x + 1));
    assert r == counter && counter.contents == 2;
    r := Tap(counter, None);
    assert r == counter && counter.contents == 2;
  }
}
