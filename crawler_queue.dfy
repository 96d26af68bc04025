/**
 * `URLQueue`, the crawler's frontier: URLs only, fragment-stripped on `add`,
 * with a hash set of every URL ever admitted.
 */
module CrawlerQueue {
  import opened Results
  import opened Fragments
  import Frontier

  class URLQueue {
    var queue: seq<string>
    var seen: set<string>
    var len: int

    /** The queue as a value of the shared state machine. */
    ghost function Abs(): Frontier.State<string>
      reads this
    {
      Frontier.State(queue, seen, len)
    }

    /**
     * Pending URLs are distinct and all seen, and every seen URL has had its
     * fragment stripped.
     */
    ghost predicate Valid()
      reads this
    {
      Frontier.Inv(Abs()) && forall u :: u in seen ==> Unfragmented(u)
    }

    constructor ()
      ensures Valid() && Abs() == Frontier.Init()
    {
      queue := [];
      seen := {};
      len := 0;
    }

    /**
     * Strips the fragment, counts the call and enqueues the URL unless it was
     * seen before; a URL once seen, even if already popped, is never enqueued again.
     */
    method Add(item: string)
      requires Valid()
      modifies this
      ensures Valid()
      ensures Abs() == Frontier.Offer(old(Abs()), StripFragment(item))
      ensures StripFragment(item) in seen && len == old(len) + 1
      ensures queue == (if StripFragment(item) in old(seen) then old(queue) else old(queue) + [StripFragment(item)])
    {
      var key := StripFragment(item);
      len := len + 1;
      if key !in seen {
        queue := queue + [key];
        seen := seen + {key};
      }
    }

    /**
     * Counts the call, then removes and returns the oldest pending URL, or
     * raises `IndexError` with the deque and the seen set unchanged.
     */
    method Pop() returns (r: Result<string>)
      requires Valid()
      modifies this
      ensures Valid()
      ensures Frontier.Take(old(Abs())) == Frontier.Step(Abs(), r)
      ensures len == old(len) - 1 && seen == old(seen)
      ensures old(queue) != [] ==> r == Ok(old(queue)[0]) && queue == old(queue)[1..]
      ensures old(queue) == [] ==> r == Err(IndexError(EMPTY_QUEUE_MESSAGE)) && queue == []
    {
      len := len - 1;
      if queue != [] {
        r := Ok(queue[0]);
        queue := queue[1..];
        Frontier.TakeSpec(old(Abs()));
        return;
      }
      r := Err(IndexError(EMPTY_QUEUE_MESSAGE));
    }

    /** `empty()`: the counter is zero, which need not mean the deque is empty. */
    method Empty() returns (b: bool)
      ensures b <==> Frontier.IsEmpty(Abs())
      ensures b <==> len == 0
    {
      b := len == 0;
    }

    /** `__len__`: the counter, adds minus pops. */
    method Length() returns (n: int)
      ensures n == len
    {
      n := len;
    }

    /**
     * `__contains__`: the raw argument is looked up in the seen set, without
     * stripping its fragment, so a URL holding a `#` is never reported.
     */
    method Contains(item: string) returns (b: bool)
      ensures b <==> item in seen
      ensures Valid() && !Unfragmented(item) ==> !b
    {
      b := item in seen;
    }
  }

  /**
   * Any sequence of calls on a fresh `URLQueue` follows `Frontier.Run` with
   * `StripFragment` as normalisation: the object's state and the items its
   * `Pop` returned are those of the history, so every theorem about histories
   * holds of the class.
   */
  method Replay(ops: seq<Frontier.Op<string>>) returns (q: URLQueue, popped: seq<string>)
    ensures q.Valid()
    ensures Frontier.Trace(q.Abs(), popped) == Frontier.Run(StripFragment, ops)
  {
    q := new URLQueue();
    popped := [];
    for i := 0 to |ops|
      invariant q.Valid()
      invariant Frontier.Trace(q.Abs(), popped) == Frontier.Run(StripFragment, ops[..i])
    {
      match ops[i] {
        case Add(x) =>
          q.Add(x);
        case Pop =>
          var r := q.Pop();
          if r.Ok? {
            popped := popped + [r.value];
          }
      }
      Frontier.RunSnoc(StripFragment, ops[..i], ops[i]);
      assert ops[..i + 1] == ops[..i] + [ops[i]];
    }
    assert ops[..|ops|] == ops;
  }

  /**
   * The calls a breadth-first crawler would make after fetching its seed: the
   * seed is popped, then the page's links are added, one of them a second time
   * with a fragment. Each link is pending once, in the order added, and the
   * fragment never reaches the queue.
   */
  lemma CrawlStep(seed: string, link: string, variant: string, other: string)
    requires Unfragmented(seed) && Unfragmented(link) && Unfragmented(other)
    requires exists fragment :: variant == link + [FRAGMENT_DELIMITER] + fragment
    requires seed != link && seed != other && link != other
    ensures Frontier.Run(StripFragment,
                         [Frontier.Add(seed), Frontier.Pop, Frontier.Add(link), Frontier.Add(variant), Frontier.Add(other)])
         == Frontier.Trace(Frontier.State([link, other], {seed, link, other}, 3), [seed])
    ensures |{seed, link, other}| == 3
  {
    StripUnfragmented(seed);
    StripUnfragmented(link);
    StripUnfragmented(other);
    var fragment :| variant == link + [FRAGMENT_DELIMITER] + fragment;
    StripAtDelimiter(link, fragment);
    Frontier.SeedThenLinks(StripFragment, seed, link, variant, other);
  }

  /**
   * The calls add https://a.co, pop, then add /p1, /p1#x and /p2, as a
   * breadth-first crawler would after fetching that seed: /p1 and /p2 are
   * pending, in that order, and three URLs have been seen.
   */
  lemma SeedScenario()
    ensures var t := Frontier.Run(StripFragment,
                       [Frontier.Add("https://a.co"), Frontier.Pop, Frontier.Add("https://a.co/p1"),
                        Frontier.Add("https://a.co/p1#x"), Frontier.Add("https://a.co/p2")]);
      && t.popped == ["https://a.co"]
      && t.state.queue == ["https://a.co/p1", "https://a.co/p2"]
      && |t.state.seen| == 3
      && t.state.len == 3
  {
    assert "https://a.co/p1#x" == "https://a.co/p1" + [FRAGMENT_DELIMITER] + "x";
    CrawlStep("https://a.co", "https://a.co/p1", "https://a.co/p1#x", "https://a.co/p2");
  }
}
