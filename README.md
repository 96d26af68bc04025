# Unique FIFO URL frontier

A model of the two deduplicating FIFO queues of the crawler pipeline:

- `URLQueue` (crawler/queue.py) holds URL strings, strips their fragment on
  `add` and remembers every admitted URL in a hash set;
- `UniqueQueue` (utils/queue.py) holds URL strings or dictionaries, strips the
  fragment of strings only, and remembers every admitted item in a list.

Both keep a deque `queue` of pending items, the collection `seen` of every
item ever admitted, and a counter `len`. `add` counts the call and appends the
normalised item unless it was seen before; `pop` counts the call and removes
the oldest pending item or raises `IndexError`. The fragment is everything
from the first `#` on, the fragment delimiter of section 3.5 of RFC 3986, and
is removed as Python's `item.split("#")[0]` does.

Layout:

- `fragments.dfy` (module `Fragments`): `str.split` for one separator, its
  inverse `Join`, and `StripFragment`, with its characterisation as the
  longest `#`-free prefix.
- `frontier.dfy` (module `Frontier`): the state machine both classes
  implement, as values (`Offer` is `add` after normalisation, `Take` is
  `pop`), and whole histories of calls (`Run`) with the FIFO, uniqueness and
  counting theorems.
- `crawler_queue.dfy` (module `CrawlerQueue`): class `URLQueue`.
- `utils_queue.dfy` (module `UtilsQueue`): the item type, the list scan, and
  class `UniqueQueue`.
- `sequences.dfy`, `results.dfy`: sequence predicates and the
  `Ok`/`Err(IndexError)` result of `pop`.

Each class exposes a ghost view `Abs()` of its fields as a `Frontier.State`;
`Add` and `Pop` are proved to move that view exactly as `Frontier.Offer` and
`Frontier.Take` do. `CrawlerQueue.Replay` and `UtilsQueue.Replay` run any
sequence of calls on a fresh object and prove that its state and the items
`Pop` returned are those of `Frontier.Run`, so every theorem about histories
in `Frontier` holds of either class.

The counter is modelled as the code has it: it goes up on every `add`,
duplicates included, and down on every `pop`, failed ones included. One might
expect `len` to equal the length of the deque, and `empty()` to stay true
until the next `add`; the code keeps neither. `DuplicateAddKeepsCount`,
`FailedPopHidesPending` and `PopAfterEmpty` give inputs that break each.

## Model

| member | source | states |
|---|---|---|
| Fragments.Split | crawler/queue.py:10 | `str.split` on one character: at least one piece, no piece holds the separator, the first piece is a prefix of the string ending just before the first separator, and a string without separator is its own single piece |
| Fragments.JoinSplit | crawler/queue.py:10 | splitting loses nothing: joining the pieces with the separator gives the string back |
| Fragments.StripFragment | crawler/queue.py:10 | `item.split("#")[0]` has no `#` and is a prefix of the item |
| Fragments.StripFragmentCharacterised | crawler/queue.py:10 | `r` is the stripped URL exactly when `r` is a `#`-free prefix of it that is the whole URL or is followed by `#` (both directions) |
| Fragments.StripFragmentIdempotent | crawler/queue.py:10 | stripping twice is stripping once |
| Fragments.StripUnfragmented | crawler/queue.py:10 | a URL without `#` is kept unchanged |
| Fragments.StripAtDelimiter | crawler/queue.py:10 | everything from the first `#` on is dropped, later `#`s included |
| Frontier.Init | crawler/queue.py:4-7 | `__init__`: empty deque, nothing seen, counter zero; the invariant and `empty()` hold |
| Frontier.IsEmpty | crawler/queue.py:27-28 | `empty()`: true exactly when the counter is zero, whatever the deque holds (`EmptyIffBalanced` ties it to adds minus pops) |
| Frontier.Offer | crawler/queue.py:11-15 | `add` on a normalised key: counter +1, key added to seen, the deque either unchanged or with the key appended, unchanged exactly when the key was already seen; the invariant kept |
| Frontier.Take | crawler/queue.py:17-25 | `pop`: counter -1 and seen unchanged on both paths; a result exactly when the deque is non-empty, and then it is the head and the rest stays in order; on failure the deque is unchanged; the invariant kept |
| Frontier.Apply | crawler/queue.py:9-25 | one call on a history: the counter moves by +1 for `add` and -1 for `pop`; popped items and the seen set only grow; at most one item is popped per `pop` and at most one admitted per `add` |
| Frontier.Run | crawler/queue.py:4-25 | a history of calls from `__init__`: no more items popped than `pop` calls, and no more popped plus pending than `add` calls |
| CrawlerQueue.Replay | crawler/queue.py:4-25 | any sequence of `add`/`pop` calls on a fresh `URLQueue` leaves it valid with the state and popped items of `Run` under `StripFragment` |
| UtilsQueue.Replay | utils/queue.py:4-27 | any sequence of `add`/`pop` calls on a fresh `UniqueQueue` leaves it valid with the state and popped items of `Run` under `Normalise` |
| Frontier.OfferSpec | crawler/queue.py:9-15 | after `add` the key is seen and the counter is one higher; the key is appended exactly when it was unseen, otherwise deque and seen set are unchanged; the invariant (distinct pending items, all seen) is kept |
| Frontier.TakeSpec | crawler/queue.py:17-25 | `pop` returns the head exactly when the deque is non-empty and leaves the rest in order; on an empty deque it raises `IndexError("Queue is empty!")`; the counter drops by one either way, the seen set never changes, the invariant is kept |
| Frontier.DedupSpec | crawler/queue.py:13-15 | first-occurrence order has no duplicates and the same elements as its input |
| Frontier.RunAdmissionOrder | crawler/queue.py:13-23 | after any history, the items popped followed by those pending are exactly the distinct normalised added items in order of first addition, and the seen set is every normalised item ever added |
| Frontier.RunCount | crawler/queue.py:11-18 | after any history the counter is the number of `add` calls minus the number of `pop` calls, duplicates and failed pops included |
| Frontier.RunInv | crawler/queue.py:13-21 | the invariant holds after any history |
| Frontier.PoppedOnce | crawler/queue.py:13-23 | no item is returned by `pop` twice, nor returned while still pending |
| Frontier.RunExtends | crawler/queue.py:15-21 | later calls only extend what was popped and what was seen |
| Frontier.PoppedNeverRequeued | crawler/queue.py:13-15 | an item once popped is never pending again, whatever is added later |
| Frontier.PoppedInAdmissionOrder | crawler/queue.py:20-23 | `pop` returns items in the order they were first added (FIFO) |
| Frontier.EmptyIffBalanced | crawler/queue.py:27-28 | after any history, `empty()` holds exactly when adds and pops balance |
| Frontier.DuplicateAddKeepsCount | crawler/queue.py:11 | two adds of one item and one pop leave the deque empty, `empty()` false and a further `pop` failing |
| Frontier.FailedPopHidesPending | crawler/queue.py:18 | a failed pop then an add leave `empty()` true with an item pending |
| Frontier.PopAfterEmpty | crawler/queue.py:18 | a pop when `empty()` holds leaves the counter at -1 and `empty()` false |
| Frontier.PopFirstGoesNegative | crawler/queue.py:17-25 | a pop before any add raises, returns nothing and drives the counter to -1 |
| Frontier.SeedThenLinks | crawler/queue.py:9-23 | popping a seed and adding three links, two of which normalise alike, leaves the two distinct links pending in discovery order, three items seen, counter 3 |
| CrawlerQueue.URLQueue.constructor | crawler/queue.py:4-7 | empty deque, empty seen set, counter 0, invariant established |
| CrawlerQueue.URLQueue.Add | crawler/queue.py:9-15 | the new state is `Offer` of the old one on the stripped URL: counter +1, stripped URL seen, appended exactly when unseen; the invariant, including "every seen URL is fragment-free", is kept |
| CrawlerQueue.URLQueue.Pop | crawler/queue.py:17-25 | the new state and the result are `Take` of the old state: head returned and removed, or `IndexError` with deque and seen unchanged; the counter drops by one either way |
| CrawlerQueue.URLQueue.Empty | crawler/queue.py:27-28 | true exactly when the counter is zero |
| CrawlerQueue.URLQueue.Length | crawler/queue.py:30-31 | returns the counter |
| CrawlerQueue.URLQueue.Contains | crawler/queue.py:33-34 | membership of the raw argument in the seen set, so a URL with a `#` is never reported |
| CrawlerQueue.CrawlStep | crawler/queue.py:9-23 | over URLs: popping the seed and adding a link, the link with a fragment, and another link leaves the two links pending in order, each once |
| CrawlerQueue.SeedScenario | crawler/queue.py:9-23 | seed https://a.co, links /p1, /p1#x, /p2: after the seed is popped, /p1 and /p2 are pending in that order and three URLs are seen |
| UtilsQueue.Normalise | utils/queue.py:10-11 | strings come back stripped (a `#`-free prefix), dictionaries come back unchanged |
| UtilsQueue.NormaliseIdempotent | utils/queue.py:10-11 | normalising twice is normalising once, and the result is normalised |
| UtilsQueue.ListContains | utils/queue.py:15 | the linear scan of the list finds the item exactly when it is in the list |
| UtilsQueue.SuffixOfDistinct | utils/queue.py:15-23 | a duplicate-free list and a suffix of it form a valid state: distinct pending items, all seen |
| UtilsQueue.UniqueQueue.constructor | utils/queue.py:4-7 | empty deque, empty seen list, counter 0, invariant established |
| UtilsQueue.UniqueQueue.Add | utils/queue.py:9-17 | the new state is `Offer` of the old one on the normalised item; the item is appended to both deque and seen list exactly when it equals no seen item, otherwise both are unchanged; the seen list stays duplicate-free with the deque as its suffix |
| UtilsQueue.UniqueQueue.Pop | utils/queue.py:19-27 | the new state and the result are `Take` of the old state: head returned and removed, or `IndexError` with deque and seen list unchanged; the counter drops by one either way |
| UtilsQueue.UniqueQueue.Empty | utils/queue.py:29-30 | true exactly when the counter is zero |
| UtilsQueue.UniqueQueue.Length | utils/queue.py:32-33 | returns the counter |
| UtilsQueue.UniqueQueue.Contains | utils/queue.py:35-36 | membership of the raw argument in the seen list, so a string with a `#` is never reported |

## Left out

- The crawl driver (crawler/crawler.py) is not part of this model: it is asynchronous and hands every fetch to an external browser crawler. Its queue use is seeding a `URLQueue` with the start URL by one `add` (crawler/crawler.py:24-25), then draining it with `empty()` and `pop()` while logging `len(queue)` (crawler/crawler.py:34-38). It never adds links back, so its loop runs once.
- Python's built-in `len(q)` raises `ValueError` when `__len__` returns a negative number; `Length` returns the counter as `__len__` does and does not model that check.
- `URLQueue.add` is annotated for strings; calling it with another type fails inside `split`. The model's `Add` takes strings only.
- Dictionaries are stood for by any type with equality, compared by value as Python's `==` compares dicts; their contents and hashing are not modelled.
- `UniqueQueue` stores dictionaries by reference: a caller that mutates a dictionary after `add` changes what `seen` and `queue` hold. Items are values in the model, so this aliasing is not captured.
- `URLQueue.__contains__` accepts any argument: another hashable value gives `False` and an unhashable one raises `TypeError`. `CrawlerQueue.URLQueue.Contains` takes strings only.
- The deque is a sequence: the model says what `append` and `popleft` produce, not how a deque stores it, and the cost difference between the hash set and the list scan is not modelled.
- Browser automation (main.py), the vector store and loader (loader/), embeddings, prompts, state declarations and environment checks (utils/checker.py) are not part of this model: they are I/O or calls into external libraries.
