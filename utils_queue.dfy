/**
 * `UniqueQueue`, the general frontier: items are URL strings or dictionaries;
 * strings are fragment-stripped on `add`, dictionaries are kept as given, and
 * every admitted item is remembered in a list, in admission order.
 */
module UtilsQueue {
  import opened Sequences
  import opened Results
  import opened Fragments
  import Frontier

  /**
   * An item of the queue. Dictionaries are compared by value, so any type with
   * equality stands for them.
   */
  datatype Item<D> = Str(text: string) | Dict(fields: D)

  /** What `add` does to its argument before looking it up: strip strings, keep dictionaries. */
  function Normalise<D>(item: Item<D>): (r: Item<D>)
    ensures r.Str? <==> item.Str?
    ensures item.Dict? ==> r == item
    ensures r.Str? ==> Unfragmented(r.text) && r.text <= item.text
  {
    match item
    case Str(s) => Str(StripFragment(s))
    case Dict(_) => item
  }

  /** The form every admitted item has: a string without a fragment, or any dictionary. */
  predicate Normalised<D>(item: Item<D>) {
    item.Str? ==> Unfragmented(item.text)
  }

  /** Normalising twice is normalising once, and only normalised items come out. */
  lemma NormaliseIdempotent<D>(item: Item<D>)
    ensures Normalised(Normalise(item))
    ensures Normalise(Normalise(item)) == Normalise(item)
  {
    if item.Str? {
      StripFragmentIdempotent(item.text);
    }
  }

  /** `x in xs` on a Python list: a scan from the front comparing by equality. */
  method ListContains<T(==)>(xs: seq<T>, x: T) returns (found: bool)
    ensures found <==> x in xs
  {
    for i := 0 to |xs|
      invariant x !in xs[..i]
    {
      if xs[i] == x {
        return true;
      }
    }
    return false;
  }

  /**
   * A list without duplicates, and a suffix of it, make a consistent state of
   * the shared machine: the pending items are distinct and all seen.
   */
  lemma SuffixOfDistinct<T>(queue: seq<T>, seen: seq<T>, len: int)
    requires NoDuplicates(seen) && IsSuffix(queue, seen)
    ensures NoDuplicates(queue)
    ensures Frontier.Inv(Frontier.State(queue, Elems(seen), len))
  {
    var k := |seen| - |queue|;
    forall i, j | 0 <= i < j < |queue|
      ensures queue[i] != queue[j]
    {
      assert queue[i] == seen[k + i] && queue[j] == seen[k + j];
    }
    forall x | x in queue
      ensures x in seen
    {
      var i :| 0 <= i < |queue| && queue[i] == x;
      assert seen[k + i] == x;
    }
  }

  /**
   * Any sequence of calls on a fresh `UniqueQueue` follows `Frontier.Run` with
   * `Normalise` as normalisation: the object's state and the items its `Pop`
   * returned are those of the history, so every theorem about histories holds
   * of the class.
   */
  method Replay<D(==)>(ops: seq<Frontier.Op<Item<D>>>) returns (q: UniqueQueue<D>, popped: seq<Item<D>>)
    ensures q.Valid()
    ensures Frontier.Trace(q.Abs(), popped) == Frontier.Run(Normalise, ops)
  {
    q := new UniqueQueue();
    popped := [];
    for i := 0 to |ops|
      invariant q.Valid()
      invariant Frontier.Trace(q.Abs(), popped) == Frontier.Run(Normalise, ops[..i])
    {
      match ops[i] {
        case Add(x) =>
          q.Add(x);
        case Pop =>
          var r := q.Pop();
          if r.Ok? {
            popped := popped + [r.value];
          }
      }
      Frontier.RunSnoc(Normalise, ops[..i], ops[i]);
      assert ops[..i + 1] == ops[..i] + [ops[i]];
    }
    assert ops[..|ops|] == ops;
  }

  class UniqueQueue<D(==)> {
    var queue: seq<Item<D>>
    var seen: seq<Item<D>>
    var len: int

    /** The queue as a value of the shared state machine. */
    ghost function Abs(): Frontier.State<Item<D>>
      reads this
    {
      Frontier.State(queue, Elems(seen), len)
    }

    /**
     * The seen list has no duplicates and holds only normalised items, and the
     * pending items are the most recently admitted ones, in admission order.
     */
    ghost predicate Valid()
      reads this
    {
      && NoDuplicates(seen)
      && IsSuffix(queue, seen)
      && forall i :: 0 <= i < |seen| ==> Normalised(seen[i])
    }

    constructor ()
      ensures Valid() && Abs() == Frontier.Init()
    {
      queue := [];
      seen := [];
      len := 0;
    }

    /**
     * Normalises the item, counts the call, and appends it to both the deque
     * and the seen list unless it equals an item seen before.
     */
    method Add(item: Item<D>)
      requires Valid()
      modifies this
      ensures Valid() && Frontier.Inv(Abs())
      ensures Abs() == Frontier.Offer(old(Abs()), Normalise(item))
      ensures len == old(len) + 1
      ensures Normalise(item) in old(seen) ==> seen == old(seen) && queue == old(queue)
      ensures Normalise(item) !in old(seen) ==>
                seen == old(seen) + [Normalise(item)] && queue == old(queue) + [Normalise(item)]
    {
      var key := Normalise(item);
      NormaliseIdempotent(item);
      len := len + 1;
      var known := ListContains(seen, key);
      if !known {
        queue := queue + [key];
        seen := seen + [key];
        assert Elems(seen) == old(Elems(seen)) + {key};
      }
      SuffixOfDistinct(queue, seen, len);
    }

    /**
     * Counts the call, then removes and returns the oldest pending item, or
     * raises `IndexError` with the deque and the seen list unchanged.
     */
    method Pop() returns (r: Result<Item<D>>)
      requires Valid()
      modifies this
      ensures Valid() && Frontier.Inv(Abs())
      ensures Frontier.Take(old(Abs())) == Frontier.Step(Abs(), r)
      ensures len == old(len) - 1 && seen == old(seen)
      ensures old(queue) != [] ==> r == Ok(old(queue)[0]) && queue == old(queue)[1..]
      ensures old(queue) == [] ==> r == Err(IndexError(EMPTY_QUEUE_MESSAGE)) && queue == []
    {
      len := len - 1;
      if queue != [] {
        r := Ok(queue[0]);
        queue := queue[1..];
        SuffixOfDistinct(queue, seen, len);
        return;
      }
      r := Err(IndexError(EMPTY_QUEUE_MESSAGE));
      SuffixOfDistinct(queue, seen, len);
    }

    /** `empty()`: the counter is zero, which need not mean the deque is empty. */
    method Empty() returns (b: bool)
      ensures b <==> Frontier.IsEmpty(Abs())
      ensures b <==> len == 0
    {
      b := len == 0;
    }

    /** `__len__`: the counter, adds minus pops. */
    method Length() returns (n: int)
      ensures n == len
    {
      n := len;
    }

    /**
     * `__contains__`: the raw argument is looked up in the seen list, without
     * normalisation, so a string holding a `#` is never reported.
     */
    method Contains(item: Item<D>) returns (b: bool)
      ensures b <==> item in seen
      ensures Valid() && !Normalised(item) ==> !b
    {
      b := ListContains(seen, item);
    }
  }
}
