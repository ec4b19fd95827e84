/** The single-producer single-consumer ring buffer that carries datagrams
    from the receiver to the processing thread, read sequentially: the
    atomic head and tail become plain fields. The slot count is a power of
    two and indices advance by masking with one less than it, so one slot
    always stays free. */
module RingBuffer {

  // ---------------------------------------------------------------------
  // Powers of two and masking
  // ---------------------------------------------------------------------

  predicate IsPow2(n: nat)
  {
    if n <= 1 then n == 1 else n % 2 == 0 && IsPow2(n / 2)
  }

  /** Bitwise and of two naturals, bit by bit from the lowest. */
  function BitAnd(a: nat, b: nat): nat
  {
    if a == 0 || b == 0 then 0
    else 2 * BitAnd(a / 2, b / 2) + (if a % 2 == 1 && b % 2 == 1 then 1 else 0)
  }

  /** Masking a slot index with one less than a power of two leaves it
      as it is. */
  lemma {:induction false} MaskKeepsIndex(x: nat, n: nat)
    requires IsPow2(n) && x < n
    ensures BitAnd(x, n - 1) == x
    decreases n
  {
    if n > 1 && x > 0 {
      assert (n - 1) % 2 == 1 && (n - 1) / 2 == n / 2 - 1;
      MaskKeepsIndex(x / 2, n / 2);
    }
  }

  /** Masking a power of two with one less than itself gives 0. */
  lemma {:induction false} MaskClearsPow2(n: nat)
    requires IsPow2(n)
    ensures BitAnd(n, n - 1) == 0
    decreases n
  {
    if n > 1 {
      assert (n - 1) % 2 == 1 && (n - 1) / 2 == n / 2 - 1;
      MaskClearsPow2(n / 2);
    }
  }

  /** Advancing an index by one within a power-of-two ring steps to the
      next slot, wrapping from the last to the first. */
  function Advance(i: nat, n: nat): (j: nat)
    requires IsPow2(n) && i < n
    ensures j == if i + 1 == n then 0 else i + 1
  {
    if i + 1 == n then MaskClearsPow2(n); BitAnd(i + 1, n - 1)
    else MaskKeepsIndex(i + 1, n); BitAnd(i + 1, n - 1)
  }

  // ---------------------------------------------------------------------
  // The ring
  // ---------------------------------------------------------------------

  /** `buf` holds the slots; `head` is the next slot to write and `tail`
      the next slot to read. */
  datatype Ring<T> = Ring(buf: seq<T>, head: nat, tail: nat)

  predicate Valid<T>(r: Ring<T>)
  {
    IsPow2(|r.buf|) && r.head < |r.buf| && r.tail < |r.buf|
  }

  /** A new ring: both indices at slot 0, every slot holding `fill`. */
  function Empty<T>(n: nat, fill: T): (r: Ring<T>)
    requires IsPow2(n)
    ensures Valid(r) && |r.buf| == n && Size(r) == 0
    ensures r.head == 0 && r.tail == 0
    ensures forall i :: 0 <= i < |r.buf| ==> r.buf[i] == fill
  {
    Ring(seq(n, _ => fill), 0, 0)
  }

  /** How many items are waiting: head less tail, taken around the ring. */
  function Size<T>(r: Ring<T>): (n: nat)
    requires Valid(r)
    ensures n < |r.buf|
    ensures r.tail + n == r.head || r.tail + n == r.head + |r.buf|
    ensures n == 0 <==> r.head == r.tail
  {
    if r.head >= r.tail then r.head - r.tail else |r.buf| - (r.tail - r.head)
  }

  /** Appends `item` at the head unless that would make head meet tail;
      the flag says whether it did, and a refused push changes nothing. */
  function TryPush<T>(r: Ring<T>, item: T): (res: (Ring<T>, bool))
    requires Valid(r)
    ensures Valid(res.0) && |res.0.buf| == |r.buf|
    ensures !res.1 ==> res.0 == r
    ensures res.1 ==> && res.0.buf == r.buf[r.head := item] && res.0.tail == r.tail
                      && (res.0.head == r.head + 1 || (r.head == |r.buf| - 1 && res.0.head == 0))
  {
    var next := Advance(r.head, |r.buf|);
    if next == r.tail then (r, false)
    else (Ring(r.buf[r.head := item], next, r.tail), true)
  }

  /** Takes the item at the tail unless the ring is empty. `item` stands
      for the caller's output variable, which a failed pop leaves as it
      was. */
  function TryPop<T>(r: Ring<T>, item: T): (res: (Ring<T>, T, bool))
    requires Valid(r)
    ensures Valid(res.0) && |res.0.buf| == |r.buf|
    ensures !res.2 ==> res.0 == r && res.1 == item
    ensures res.2 ==> && res.1 == r.buf[r.tail] && res.0.buf == r.buf && res.0.head == r.head
                      && (res.0.tail == r.tail + 1 || (r.tail == |r.buf| - 1 && res.0.tail == 0))
  {
    if r.tail == r.head then (r, item, false)
    else (r.(tail := Advance(r.tail, |r.buf|)), r.buf[r.tail], true)
  }

  // ---------------------------------------------------------------------
  // The queue a ring stands for
  // ---------------------------------------------------------------------

  /** The slot holding the i-th waiting item. */
  function Slot<T>(r: Ring<T>, i: nat): (k: nat)
    requires Valid(r) && i < |r.buf|
    ensures k < |r.buf|
  {
    if r.tail + i < |r.buf| then r.tail + i else r.tail + i - |r.buf|
  }

  /** The waiting items, oldest first. */
  function Contents<T>(r: Ring<T>): (q: seq<T>)
    requires Valid(r)
    ensures |q| == Size(r)
  {
    seq(Size(r), i requires 0 <= i < Size(r) => r.buf[Slot(r, i)])
  }

  /** The head is the slot just past the waiting items. */
  lemma HeadFollowsContents<T>(r: Ring<T>)
    requires Valid(r)
    ensures Slot(r, Size(r)) == r.head
  {
  }

  /** A push succeeds exactly when fewer than `Size - 1` items wait, and
      then appends the item to the queue. */
  lemma PushAppends<T>(r: Ring<T>, item: T)
    requires Valid(r)
    ensures TryPush(r, item).1 <==> Size(r) < |r.buf| - 1
    ensures TryPush(r, item).1 ==> Contents(TryPush(r, item).0) == Contents(r) + [item]
  {
    var (r', ok) := TryPush(r, item);
    if ok {
      assert Size(r') == Size(r) + 1;
      HeadFollowsContents(r);
      forall i | 0 <= i < Size(r')
        ensures Contents(r')[i] == (Contents(r) + [item])[i]
      {
        assert Slot(r', i) == Slot(r, i);
        if i < Size(r) {
          assert Slot(r, i) != r.head;
        }
      }
    }
  }

  /** A pop succeeds exactly when an item waits, and then yields the
      oldest one and drops it from the queue. */
  lemma PopTakesOldest<T>(r: Ring<T>, item: T)
    requires Valid(r)
    ensures TryPop(r, item).2 <==> Size(r) > 0
    ensures TryPop(r, item).2 ==>
      TryPop(r, item).1 == Contents(r)[0] && Contents(TryPop(r, item).0) == Contents(r)[1..]
  {
    var (r', out, ok) := TryPop(r, item);
    if ok {
      assert Size(r') == Size(r) - 1;
      forall i | 0 <= i < Size(r')
        ensures Contents(r')[i] == Contents(r)[1..][i]
      {
        assert Slot(r', i) == Slot(r, i + 1);
      }
    }
  }

  // ---------------------------------------------------------------------
  // Runs of operations
  // ---------------------------------------------------------------------

  /** Pushes each item in turn; the flag is whether every push succeeded. */
  function PushAll<T>(r: Ring<T>, items: seq<T>): (res: (Ring<T>, bool))
    requires Valid(r)
    ensures Valid(res.0) && |res.0.buf| == |r.buf|
    decreases |items|
  {
    if |items| == 0 then (r, true)
    else
      var (r', ok) := TryPush(r, items[0]);
      var (r'', rest) := PushAll(r', items[1..]);
      (r'', ok && rest)
  }

  /** Pops `n` times into the caller's variable `item`; returns the ring,
      the values popped and whether every pop succeeded. */
  function PopN<T>(r: Ring<T>, n: nat, item: T): (res: (Ring<T>, seq<T>, bool))
    requires Valid(r)
    ensures Valid(res.0) && |res.0.buf| == |r.buf| && |res.1| == n
    decreases n
  {
    if n == 0 then (r, [], true)
    else
      var (r', out, ok) := TryPop(r, item);
      var (r'', outs, rest) := PopN(r', n - 1, out);
      (r'', [out] + outs, ok && rest)
  }

  /** Items pushed while there is room all go in, after those already
      waiting. */
  lemma {:induction false} PushAllAppends<T>(r: Ring<T>, items: seq<T>)
    requires Valid(r) && Size(r) + |items| <= |r.buf| - 1
    ensures PushAll(r, items).1
    ensures Contents(PushAll(r, items).0) == Contents(r) + items
    decreases |items|
  {
    if |items| > 0 {
      PushAppends(r, items[0]);
      var r' := TryPush(r, items[0]).0;
      PushAllAppends(r', items[1..]);
      assert Contents(r') + items[1..] == Contents(r) + items;
    } else {
      assert Contents(r) + items == Contents(r);
    }
  }

  /** Popping no more than are waiting yields them oldest first and leaves
      the rest. */
  lemma {:induction false} PopNTakesOldest<T>(r: Ring<T>, n: nat, item: T)
    requires Valid(r) && n <= Size(r)
    ensures PopN(r, n, item).2
    ensures PopN(r, n, item).1 == Contents(r)[..n]
    ensures Contents(PopN(r, n, item).0) == Contents(r)[n..]
    decreases n
  {
    if n > 0 {
      PopTakesOldest(r, item);
      var (r', out, ok) := TryPop(r, item);
      PopNTakesOldest(r', n - 1, out);
      assert Contents(r)[..n] == [out] + Contents(r')[..n - 1];
      assert Contents(r)[n..] == Contents(r')[n - 1..];
    }
  }

  /** First in, first out: whatever fits is popped back in the order it
      was pushed, and the ring is then empty. */
  lemma FifoRoundTrip<T>(n: nat, fill: T, items: seq<T>, item: T)
    requires IsPow2(n) && |items| <= n - 1
    ensures PushAll(Empty(n, fill), items).1
    ensures PopN(PushAll(Empty(n, fill), items).0, |items|, item).1 == items
    ensures Size(PopN(PushAll(Empty(n, fill), items).0, |items|, item).0) == 0
  {
    var e := Empty(n, fill);
    assert Contents(e) == [];
    PushAllAppends(e, items);
    var full := PushAll(e, items).0;
    assert Contents(full) == items;
    PopNTakesOldest(full, |items|, item);
    assert items[..|items|] == items;
  }

  /** A ring of `n` slots holds `n - 1` items: once that many are in, the
      next push is refused and, once they are out, the next pop is. */
  lemma CapacityIsOneLess<T>(n: nat, fill: T, items: seq<T>, extra: T, item: T)
    requires IsPow2(n) && |items| == n - 1
    ensures PushAll(Empty(n, fill), items).1
    ensures !TryPush(PushAll(Empty(n, fill), items).0, extra).1
    ensures PopN(PushAll(Empty(n, fill), items).0, n - 1, item).1 == items
    ensures !TryPop(PopN(PushAll(Empty(n, fill), items).0, n - 1, item).0, item).2
  {
    var e := Empty(n, fill);
    FifoRoundTrip(n, fill, items, item);
    PushAllAppends(e, items);
    var full := PushAll(e, items).0;
    PushAppends(full, extra);
    var drained := PopN(full, n - 1, item).0;
    PopTakesOldest(drained, item);
  }

  /** The unit test's scenario on eight slots: seven pushes succeed, the
      eighth is refused, seven pops return 0 to 6 in order and the next
      pop is refused. */
  lemma EightSlotScenario(items: seq<int>)
    requires items == [0, 1, 2, 3, 4, 5, 6]
    ensures Size(Empty(8, 0)) == 0
    ensures PushAll(Empty(8, 0), items).1
    ensures !TryPush(PushAll(Empty(8, 0), items).0, 99).1
    ensures PopN(PushAll(Empty(8, 0), items).0, 7, -1).1 == items
    ensures !TryPop(PopN(PushAll(Empty(8, 0), items).0, 7, -1).0, -1).2
  {
    assert IsPow2(8) by {
      assert IsPow2(4) by { assert IsPow2(2); }
    }
    CapacityIsOneLess(8, 0, items, 99, -1);
  }
}
