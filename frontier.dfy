/**
 * The state machine both queues implement, as pure values: a deque of pending
 * items, the set of every item ever admitted, and the counter `len`. `add`
 * counts the call and admits a normalised item that was never admitted before;
 * `pop` counts the call and removes the oldest pending item, or fails with
 * `IndexError` when there is none. The counter is NOT the number of pending
 * items: it goes up on duplicate adds and down on failed pops.
 */
module Frontier {
  import opened Sequences
  import opened Results

  datatype State<T> = State(queue: seq<T>, seen: set<T>, len: int)

  /** What `pop` leaves behind and what it returns or raises. */
  datatype Step<T> = Step(state: State<T>, out: Result<T>)

  /** The state `__init__` builds: an empty deque, nothing seen, a zero counter. */
  function Init<T>(): (st: State<T>)
    ensures Inv(st) && IsEmpty(st) && st.seen == {}
  {
    State([], {}, 0)
  }

  /** Pending items are distinct and were all admitted. */
  ghost predicate Inv<T>(st: State<T>) {
    NoDuplicates(st.queue) && Elems(st.queue) <= st.seen
  }

  /** `empty()`: the counter is zero, whatever the deque holds. */
  predicate IsEmpty<T>(st: State<T>): (b: bool)
    ensures b <==> st.len == 0
  {
    st.len == 0
  }

  /** `add` after normalisation: count the call, then append `key` if it was never seen. */
  function Offer<T(==)>(st: State<T>, key: T): (r: State<T>)
    ensures r.len == st.len + 1
    ensures r.seen == st.seen + {key}
    ensures r.queue == st.queue || r.queue == st.queue + [key]
    ensures r.queue == st.queue <==> key in st.seen
    ensures Inv(st) ==> Inv(r)
  {
    var len := st.len + 1;
    if key !in st.seen then State(st.queue + [key], st.seen + {key}, len)
    else st.(len := len)
  }

  /** `pop`: count the call, then take the oldest pending item or raise `IndexError`. */
  function Take<T>(st: State<T>): (r: Step<T>)
    ensures r.state.len == st.len - 1 && r.state.seen == st.seen
    ensures r.out.Ok? <==> st.queue != []
    ensures r.out.Ok? ==> [r.out.value] + r.state.queue == st.queue
    ensures r.out.Err? ==> r.state.queue == st.queue
    ensures Inv(st) ==> Inv(r.state)
  {
    var len := st.len - 1;
    if st.queue != [] then Step(State(st.queue[1..], st.seen, len), Ok(st.queue[0]))
    else Step(st.(len := len), Err(IndexError(EMPTY_QUEUE_MESSAGE)))
  }

  /**
   * After `add`, the key is seen and the counter is one higher; the key is
   * appended exactly when it had not been seen, and otherwise the deque and the
   * seen set are unchanged. The invariant is kept.
   */
  lemma OfferSpec<T>(st: State<T>, key: T)
    ensures var r := Offer(st, key);
      && key in r.seen
      && r.len == st.len + 1
      && (r.queue == st.queue + [key] <==> key !in st.seen)
      && (key in st.seen ==> r.queue == st.queue && r.seen == st.seen)
      && (key !in st.seen ==> r.seen == st.seen + {key})
      && (Inv(st) ==> Inv(r))
  {
    var r := Offer(st, key);
    if key in st.seen {
      assert |r.queue| != |st.queue + [key]|;
    }
  }

  /**
   * `pop` is FIFO: on a non-empty deque it returns the oldest item and keeps
   * the rest in order; on an empty one it raises `IndexError` and changes
   * nothing but the counter. Either way the counter drops by one, the seen set
   * is untouched and the invariant is kept.
   */
  lemma TakeSpec<T>(st: State<T>)
    ensures var r := Take(st);
      && r.state.len == st.len - 1
      && r.state.seen == st.seen
      && (r.out.Ok? <==> st.queue != [])
      && (st.queue != [] ==> [r.out.value] + r.state.queue == st.queue)
      && (st.queue == [] ==> r.state.queue == [] && r.out == Err(IndexError(EMPTY_QUEUE_MESSAGE)))
      && (Inv(st) ==> Inv(r.state))
  {
    if st.queue != [] {
      assert [st.queue[0]] + st.queue[1..] == st.queue;
      assert Elems(st.queue[1..]) <= Elems(st.queue);
    }
  }

  // ---------------------------------------------------------------------------
  // Whole histories of calls.

  /** One call on the queue, with the raw argument of `add`. */
  datatype Op<T> = Add(item: T) | Pop

  /** The state after a history of calls, and every item `pop` returned, in order. */
  datatype Trace<T> = Trace(state: State<T>, popped: seq<T>)

  /** One call on top of a trace; `norm` is the queue's normalisation of `add`'s argument. */
  function Apply<T(==)>(norm: T -> T, t: Trace<T>, op: Op<T>): (r: Trace<T>)
    ensures r.state.len == t.state.len + (if op.Add? then 1 else -1)
    ensures t.popped <= r.popped && t.state.seen <= r.state.seen
    ensures |r.popped| <= |t.popped| + (if op.Pop? then 1 else 0)
    ensures |r.popped| + |r.state.queue| <= |t.popped| + |t.state.queue| + (if op.Add? then 1 else 0)
  {
    match op
    case Add(x) => Trace(Offer(t.state, norm(x)), t.popped)
    case Pop =>
      var s := Take(t.state);
      Trace(s.state, if s.out.Ok? then t.popped + [s.out.value] else t.popped)
  }

  /**
   * Runs `ops` from `__init__`. `pop` never returns more items than it was
   * called, and every item popped or pending came from its own `add`.
   */
  function Run<T(==)>(norm: T -> T, ops: seq<Op<T>>): (r: Trace<T>)
    ensures |r.popped| <= PopCount(ops)
    ensures |r.popped| + |r.state.queue| <= AddCount(ops)
    decreases |ops|
  {
    if ops == [] then Trace(Init(), [])
    else Apply(norm, Run(norm, ops[..|ops| - 1]), ops[|ops| - 1])
  }

  /** Running one more call applies it to the state reached so far. */
  lemma RunSnoc<T>(norm: T -> T, ops: seq<Op<T>>, op: Op<T>)
    ensures Run(norm, ops + [op]) == Apply(norm, Run(norm, ops), op)
  {
    assert (ops + [op])[..|ops|] == ops;
  }

  /** The normalised arguments of every `add` in `ops`, duplicates included. */
  function Keys<T>(norm: T -> T, ops: seq<Op<T>>): seq<T>
    decreases |ops|
  {
    if ops == [] then []
    else
      var before := Keys(norm, ops[..|ops| - 1]);
      match ops[|ops| - 1]
      case Add(x) => before + [norm(x)]
      case Pop => before
  }

  function AddCount<T>(ops: seq<Op<T>>): nat
    decreases |ops|
  {
    if ops == [] then 0 else AddCount(ops[..|ops| - 1]) + (if ops[|ops| - 1].Add? then 1 else 0)
  }

  function PopCount<T>(ops: seq<Op<T>>): nat
    decreases |ops|
  {
    if ops == [] then 0 else PopCount(ops[..|ops| - 1]) + (if ops[|ops| - 1].Pop? then 1 else 0)
  }

  /** The first occurrence of each element of `s`, in order of first occurrence. */
  ghost function Dedup<T>(s: seq<T>): seq<T>
    decreases |s|
  {
    if s == [] then []
    else
      var d := Dedup(s[..|s| - 1]);
      if s[|s| - 1] in d then d else d + [s[|s| - 1]]
  }

  lemma {:induction false} DedupSpec<T>(s: seq<T>)
    ensures NoDuplicates(Dedup(s))
    ensures Elems(Dedup(s)) == Elems(s)
    decreases |s|
  {
    if s != [] {
      var init := s[..|s| - 1];
      DedupSpec(init);
      assert s == init + [s[|s| - 1]];
      assert Elems(s) == Elems(init) + {s[|s| - 1]};
    }
  }

  lemma DedupSnoc<T>(s: seq<T>, x: T)
    ensures Dedup(s + [x]) == if x in Dedup(s) then Dedup(s) else Dedup(s) + [x]
  {
    assert (s + [x])[..|s|] == s;
  }

  /** The admission-order invariant of RunAdmissionOrder, for one trace and its keys. */
  ghost predicate AdmissionOrder<T>(t: Trace<T>, keys: seq<T>) {
    t.popped + t.state.queue == Dedup(keys) && t.state.seen == Elems(keys)
  }

  lemma OfferKeepsAdmissionOrder<T>(t: Trace<T>, keys: seq<T>, k: T)
    requires AdmissionOrder(t, keys)
    ensures AdmissionOrder(Trace(Offer(t.state, k), t.popped), keys + [k])
  {
    DedupSnoc(keys, k);
    DedupSpec(keys);
    assert Elems(keys + [k]) == Elems(keys) + {k};
    if k !in t.state.seen {
      assert t.popped + (t.state.queue + [k]) == (t.popped + t.state.queue) + [k];
    }
  }

  lemma TakeKeepsAdmissionOrder<T>(t: Trace<T>, keys: seq<T>)
    requires AdmissionOrder(t, keys)
    ensures var s := Take(t.state);
      AdmissionOrder(Trace(s.state, if s.out.Ok? then t.popped + [s.out.value] else t.popped), keys)
  {
    if t.state.queue != [] {
      var q := t.state.queue;
      assert (t.popped + [q[0]]) + q[1..] == t.popped + q;
    }
  }

  /**
   * The admission order: what `pop` has returned, followed by what is still
   * pending, is exactly the sequence of distinct normalised items in the order
   * they were first added; the seen set is every normalised item ever added.
   */
  lemma {:induction false} RunAdmissionOrder<T>(norm: T -> T, ops: seq<Op<T>>)
    ensures var t := Run(norm, ops);
      && t.popped + t.state.queue == Dedup(Keys(norm, ops))
      && t.state.seen == Elems(Keys(norm, ops))
    decreases |ops|
  {
    if ops != [] {
      var init := ops[..|ops| - 1];
      RunAdmissionOrder(norm, init);
      var t := Run(norm, init);
      var keys := Keys(norm, init);
      assert AdmissionOrder(t, keys);
      match ops[|ops| - 1]
      case Add(x) =>
        OfferKeepsAdmissionOrder(t, keys, norm(x));
      case Pop =>
        TakeKeepsAdmissionOrder(t, keys);
    }
  }

  /**
   * The calls a breadth-first crawler would make after fetching a seed: the seed
   * is popped, then three links are added, one of them twice under different
   * spellings. The links are pending in the order added, each once, and the
   * counter counts all four adds and the pop.
   */
  lemma SeedThenLinks<T>(norm: T -> T, seed: T, a: T, a2: T, b: T)
    requires norm(seed) == seed && norm(a) == a && norm(a2) == a && norm(b) == b
    requires seed != a && seed != b && a != b
    ensures Run(norm, [Add(seed), Pop, Add(a), Add(a2), Add(b)])
         == Trace(State([a, b], {seed, a, b}, 3), [seed])
  {
    var ops := [Add(seed), Pop, Add(a), Add(a2), Add(b)];
    RunSnoc(norm, [], Add(seed));
    assert [] + [Add(seed)] == ops[..1];
    RunSnoc(norm, ops[..1], Pop);
    assert ops[..1] + [Pop] == ops[..2];
    assert Run(norm, ops[..2]) == Trace(State([], {seed}, 0), [seed]);
    RunSnoc(norm, ops[..2], Add(a));
    assert ops[..2] + [Add(a)] == ops[..3];
    RunSnoc(norm, ops[..3], Add(a2));
    assert ops[..3] + [Add(a2)] == ops[..4];
    assert Run(norm, ops[..4]) == Trace(State([a], {seed, a}, 2), [seed]);
    RunSnoc(norm, ops[..4], Add(b));
    assert ops[..4] + [Add(b)] == ops;
  }

  /** `len` is the number of `add` calls minus the number of `pop` calls, failed ones included. */
  lemma {:induction false} RunCount<T>(norm: T -> T, ops: seq<Op<T>>)
    ensures Run(norm, ops).state.len == AddCount(ops) - PopCount(ops)
    decreases |ops|
  {
    if ops != [] {
      RunCount(norm, ops[..|ops| - 1]);
    }
  }

  /** The invariant holds after any history of calls. */
  lemma RunInv<T>(norm: T -> T, ops: seq<Op<T>>)
    ensures Inv(Run(norm, ops).state)
  {
    var t := Run(norm, ops);
    RunAdmissionOrder(norm, ops);
    DedupSpec(Keys(norm, ops));
    var all := t.popped + t.state.queue;
    assert t.state.queue == all[|t.popped|..];
    assert Elems(all[|t.popped|..]) <= Elems(all);
  }

  /** No item is returned by `pop` twice, nor returned and still pending. */
  lemma PoppedOnce<T>(norm: T -> T, ops: seq<Op<T>>)
    ensures NoDuplicates(Run(norm, ops).popped)
    ensures forall x :: x in Run(norm, ops).popped ==> x !in Run(norm, ops).state.queue
  {
    var t := Run(norm, ops);
    RunAdmissionOrder(norm, ops);
    DedupSpec(Keys(norm, ops));
    var all := t.popped + t.state.queue;
    assert t.popped == all[..|t.popped|];
    forall i, j | 0 <= i < |t.popped| && 0 <= j < |t.state.queue|
      ensures t.popped[i] != t.state.queue[j]
    {
      assert t.popped[i] == all[i] && t.state.queue[j] == all[|t.popped| + j];
    }
  }

  /** Later calls only add to what was popped and to what was seen. */
  lemma {:induction false} RunExtends<T>(norm: T -> T, ops: seq<Op<T>>, more: seq<Op<T>>)
    ensures Run(norm, ops).popped <= Run(norm, ops + more).popped
    ensures Run(norm, ops).state.seen <= Run(norm, ops + more).state.seen
    decreases |more|
  {
    if more == [] {
      assert ops + more == ops;
    } else {
      var init := more[..|more| - 1];
      RunExtends(norm, ops, init);
      assert ops + more == (ops + init) + [more[|more| - 1]];
      RunSnoc(norm, ops + init, more[|more| - 1]);
    }
  }

  /** An item once popped is never pending again, whatever is added afterwards. */
  lemma PoppedNeverRequeued<T>(norm: T -> T, ops: seq<Op<T>>, more: seq<Op<T>>, x: T)
    requires x in Run(norm, ops).popped
    ensures x !in Run(norm, ops + more).state.queue
  {
    RunExtends(norm, ops, more);
    PoppedOnce(norm, ops + more);
  }

  /** `pop` returns items in the order in which they were first added. */
  lemma PoppedInAdmissionOrder<T>(norm: T -> T, ops: seq<Op<T>>)
    ensures Run(norm, ops).popped <= Dedup(Keys(norm, ops))
  {
    RunAdmissionOrder(norm, ops);
  }

  /** `empty()` after a history holds exactly when it had as many adds as pops. */
  lemma EmptyIffBalanced<T>(norm: T -> T, ops: seq<Op<T>>)
    ensures IsEmpty(Run(norm, ops).state) <==> AddCount(ops) == PopCount(ops)
  {
    RunCount(norm, ops);
  }

  /**
   * `empty()` is not "nothing pending": two adds of one item and one pop leave
   * the deque empty while `empty()` is false, so a further `pop` raises.
   */
  lemma DuplicateAddKeepsCount<T>(norm: T -> T, u: T)
    ensures var st := Run(norm, [Add(u), Add(u), Pop]).state;
      st.queue == [] && !IsEmpty(st) && Take(st).out.Err?
  {
    var ops := [Add(u), Add(u), Pop];
    var k := norm(u);
    assert ops[..2] == [Add(u), Add(u)] && ops[..2][..1] == [Add(u)] && ops[..2][..1][..0] == [];
    assert Run(norm, ops[..2][..1]).state == State([k], {k}, 1);
    assert Run(norm, ops[..2]).state == State([k], {k}, 2);
  }

  /**
   * `empty()` does not stay true without adds: a `pop` on a queue whose counter
   * is zero leaves the counter at -1, so `empty()` turns false.
   */
  lemma PopAfterEmpty<T>(norm: T -> T, ops: seq<Op<T>>)
    requires IsEmpty(Run(norm, ops).state)
    ensures Run(norm, ops + [Pop]).state.len == -1
    ensures !IsEmpty(Run(norm, ops + [Pop]).state)
  {
    RunSnoc(norm, ops, Pop);
  }

  /**
   * Nor is `empty()` "nothing pending" the other way round: after a failed
   * `pop` and one `add`, `empty()` is true while an item is pending.
   */
  lemma FailedPopHidesPending<T>(norm: T -> T, u: T)
    ensures var st := Run(norm, [Pop, Add(u)]).state;
      IsEmpty(st) && st.queue == [norm(u)]
  {
    RunSnoc(norm, [], Pop);
    RunSnoc(norm, [Pop], Add(u));
  }

  /** A `pop` before any `add` raises and drives the counter below zero. */
  lemma PopFirstGoesNegative<T>(norm: T -> T)
    ensures var t := Run(norm, [Op<T>.Pop]);
      t.state.len == -1 && t.state.queue == [] && t.popped == [] && !IsEmpty(t.state)
  {
    assert [Op<T>.Pop][..0] == [];
  }
}
