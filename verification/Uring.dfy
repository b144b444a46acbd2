/** The io_uring backend of src/aio/aio_uring.c: two rings shared with the kernel, indexed by 32-bit
    counters that wrap around. */
module Uring {
  import opened Bits

  const WRAP := 0x1_0000_0000

  /** The context of an operation, known by its address. */
  type Op = nat

  datatype Completion = Completion(op: Op, res: int)

  /** Unsigned 32-bit subtraction. */
  function Sub32(a: nat, b: nat): nat {
    (a - b) % WRAP
  }

  /** A counter as its 32-bit variable shows it. */
  function Low32(t: nat): (r: nat)
    ensures r < WRAP
  {
    t % WRAP
  }

  /** The entry that counter t names in a ring of m. */
  function At(t: nat, m: nat): (r: nat)
    requires m > 0
    ensures r < m
  {
    t % m
  }

  lemma Difference(t: nat, h: nat)
    requires h <= t < h + WRAP
    ensures Sub32(Low32(t), Low32(h)) == t - h
  {
  }

  lemma Increment(t: nat)
    ensures (Low32(t) + 1) % WRAP == Low32(t + 1)
  {
  }

  lemma MulAssoc(m: nat, c: nat, q: nat)
    ensures m * c * q == m * (c * q)
  {
  }

  lemma MulAdd(m: nat, x: nat, y: nat)
    ensures m * (x + y) == m * x + m * y
  {
  }

  lemma ModMod(a: nat, m: nat, c: nat)
    requires m > 0 && c > 0
    ensures m * c > 0 && a % (m * c) % m == a % m
  {
    var mc := m * c;
    MulGap(m, 0, c);
    var q, r := a / mc, a % mc;
    MulAssoc(m, c, q);
    MulAdd(m, c * q, r / m);
    WholeAndRest(a, mc);
    WholeAndRest(r, m);
    ModUnique(a, m, c * q + r / m, r % m);
  }

  lemma WholeAndRest(a: nat, m: nat)
    requires m > 0
    ensures a == m * (a / m) + a % m
  {
  }

  lemma TwiceProduct(x: nat, y: nat)
    ensures 2 * (x * y) == x * (2 * y)
  {
  }

  lemma {:induction false} Pow2Product(k: nat, n: nat)
    requires k <= n
    ensures Pow2(n) == Pow2(k) * Pow2(n - k)
    decreases n - k
  {
    if k < n {
      Pow2Product(k, n - 1);
      TwiceProduct(Pow2(k), Pow2(n - 1 - k));
      assert Pow2(n - k) == 2 * Pow2(n - 1 - k);
    }
  }

  lemma WrapIsPow2()
    ensures Pow2(32) == WRAP
  {
    assert Pow2(8) == 256;
    assert Pow2(16) == 65536;
    assert Pow2(24) == 0x100_0000;
  }

  /** Masking a wrapped counter finds the entry of the true counter. */
  lemma Slot(t: nat, k: nat)
    requires k <= 32
    ensures And(Low32(t), Pow2(k) - 1) == At(t, Pow2(k))
  {
    hide And, Pow2;
    WrapIsPow2();
    AndMask(t % WRAP, k);
    Pow2Product(k, 32);
    ModMod(t, Pow2(k), Pow2(32 - k));
  }

  /** Counters less than a ring apart have different entries. */
  lemma Apart(a: nat, b: nat, m: nat)
    requires a < b < a + m
    ensures At(a, m) != At(b, m)
  {
    if a % m == b % m {
      var p, q := a / m, b / m;
      assert a == m * p + a % m && b == m * q + b % m;
      if p < q {
        MulGap(m, p, q);
      } else if q < p {
        MulGap(m, q, p);
      }
      assert false;
    }
  }

  /** The entries of `ring` from counter `from` on hold these items. */
  ghost predicate Holds<T>(ring: seq<T>, from: nat, items: seq<T>)
    requires |ring| > 0
  {
    |items| <= |ring| && forall i | 0 <= i < |items| :: ring[At(from + i, |ring|)] == items[i]
  }

  /** Writing the next free entry leaves the others alone. */
  lemma Push<T>(ring: seq<T>, from: nat, items: seq<T>, x: T)
    requires |ring| > 0 && Holds<T>(ring, from, items) && |items| < |ring|
    ensures Holds<T>(ring[At(from + |items|, |ring|) := x], from, items + [x])
    ensures Holds<T>(ring[At(from + |items|, |ring|) := x], from, items)
  {
    var n := |items|;
    forall i | 0 <= i < n ensures ring[At(from + n, |ring|) := x][At(from + i, |ring|)] == items[i] {
      Apart(from + i, from + n, |ring|);
    }
  }

  lemma HoldsFits<T>(ring: seq<T>, from: nat, items: seq<T>)
    requires |ring| > 0 && Holds<T>(ring, from, items)
    ensures |items| <= |ring|
  {
  }

  lemma HoldsPrefix<T>(ring: seq<T>, from: nat, items: seq<T>, n: nat)
    requires |ring| > 0 && Holds<T>(ring, from, items) && n <= |items|
    ensures Holds<T>(ring, from, items[..n])
  {
  }

  lemma HoldsAt<T>(ring: seq<T>, from: nat, items: seq<T>, i: nat)
    requires |ring| > 0 && Holds<T>(ring, from, items) && i < |items|
    ensures ring[At(from + i, |ring|)] == items[i]
  {
  }

  lemma HoldsSuffix<T>(ring: seq<T>, from: nat, items: seq<T>, n: nat)
    requires |ring| > 0 && Holds<T>(ring, from, items) && n <= |items|
    ensures Holds<T>(ring, from + n, items[n..])
  {
    forall i | 0 <= i < |items| - n ensures ring[At(from + n + i, |ring|)] == items[n..][i] {
      HoldsAt<T>(ring, from, items, n + i);
    }
  }

  lemma Pop<T>(ring: seq<T>, from: nat, items: seq<T>)
    requires |ring| > 0 && Holds<T>(ring, from, items) && items != []
    ensures ring[At(from, |ring|)] == items[0] && Holds<T>(ring, from + 1, items[1..])
  {
    assert ring[At(from + 0, |ring|)] == items[0];
    forall i | 0 <= i < |items| - 1 ensures ring[At(from + 1 + i, |ring|)] == items[1..][i] {
      assert ring[At(from + (i + 1), |ring|)] == items[i + 1];
    }
  }

  /** The entries of n counters from `from` on, in a ring of m. */
  function Slots(from: nat, n: nat, m: nat): (r: seq<nat>)
    requires m > 0
    ensures |r| == n
  {
    seq<nat>(n, i requires 0 <= i < n => At(from + i, m))
  }

  lemma SlotsSnoc(from: nat, n: nat, m: nat)
    requires m > 0
    ensures Slots(from, n + 1, m) == Slots(from, n, m) + [At(from + n, m)]
  {
  }

  lemma SlotsPrefix(from: nat, n: nat, k: nat, m: nat)
    requires m > 0 && k <= n
    ensures Slots(from, n, m)[..k] == Slots(from, k, m)
  {
  }

  lemma SlotsRest(from: nat, n: nat, m: nat)
    requires m > 0 && n > 0
    ensures Slots(from, n, m)[0] == At(from, m) && Slots(from, n, m)[1..] == Slots(from + 1, n - 1, m)
  {
  }

  lemma PushSlot(indices: seq<nat>, from: nat, n: nat)
    requires n < |indices| && Holds<nat>(indices, from, Slots(from, n, |indices|))
    ensures var slot := At(from + n, |indices|); Holds<nat>(indices[slot := slot], from, Slots(from, n + 1, |indices|))
  {
    hide Holds, Slots, At;
    SlotsSnoc(from, n, |indices|);
    Push<nat>(indices, from, Slots(from, n, |indices|), At(from + n, |indices|));
  }

  lemma PopSlot(indices: seq<nat>, from: nat, n: nat)
    requires 0 < n <= |indices| && Holds<nat>(indices, from, Slots(from, n, |indices|))
    ensures indices[At(from, |indices|)] == At(from, |indices|) && Holds<nat>(indices, from + 1, Slots(from + 1, n - 1, |indices|))
  {
    hide Holds, Slots, At;
    SlotsRest(from, n, |indices|);
    Pop<nat>(indices, from, Slots(from, n, |indices|));
  }

  function Ops(cs: seq<Completion>): (r: seq<Op>)
    ensures |r| == |cs|
  {
    seq<Op>(|cs|, i requires 0 <= i < |cs| => cs[i].op)
  }

  lemma OpsSnoc(cs: seq<Completion>, c: Completion)
    ensures multiset(Ops(cs + [c])) == multiset(Ops(cs)) + multiset{c.op}
  {
    assert Ops(cs + [c]) == Ops(cs) + [c.op];
  }

  lemma OpsCons(cs: seq<Completion>)
    requires cs != []
    ensures multiset(Ops(cs)) == multiset{cs[0].op} + multiset(Ops(cs[1..]))
  {
    assert Ops(cs) == [cs[0].op] + Ops(cs[1..]);
  }

  lemma {:induction false} Pow2Small(k: nat)
    requires k < 32
    ensures Pow2(k) <= 0x8000_0000
    decreases 32 - k
  {
    if k < 31 {
      Pow2Small(k + 1);
    } else {
      WrapIsPow2();
    }
  }

  /** Every accepted operation is in exactly one place: waiting in the submission ring, in the
      kernel, in the completion ring, or handed on. The first three are at most the ring's size. */
  ghost predicate Account(pending: seq<Op>, held: multiset<Op>, posted: seq<Completion>, taken: nat,
                          reaped: seq<Completion>, accepted: multiset<Op>, counted: nat, size: nat)
  {
    && taken <= |posted|
    && accepted == multiset(pending) + held + multiset(Ops(posted[taken..])) + multiset(Ops(reaped))
    && counted == |pending| + |held| + |posted| - taken
    && |pending| + |held| + |posted| <= size
  }

  lemma AccountPublish(pending: seq<Op>, held: multiset<Op>, posted: seq<Completion>, reaped: seq<Completion>,
                       accepted: multiset<Op>, counted: nat, size: nat, op: Op)
    requires Account(pending, held, posted, 0, reaped, accepted, counted, size) && counted < size
    ensures Account(pending + [op], held, posted, 0, reaped, accepted + multiset{op}, counted + 1, size)
  {
    hide Ops;
    assert multiset(pending + [op]) == multiset(pending) + multiset{op};
  }

  lemma AccountEnter(pending: seq<Op>, held: multiset<Op>, posted: seq<Completion>, taken: nat, reaped: seq<Completion>,
                     accepted: multiset<Op>, counted: nat, size: nat)
    requires Account(pending, held, posted, taken, reaped, accepted, counted, size) && pending != []
    ensures Account(pending[1..], held + multiset{pending[0]}, posted, taken, reaped, accepted, counted, size)
  {
    hide Ops;
    assert pending == [pending[0]] + pending[1..];
    assert multiset(pending) == multiset{pending[0]} + multiset(pending[1..]);
  }

  lemma AccountUnpublish(pending: seq<Op>, held: multiset<Op>, posted: seq<Completion>, taken: nat, reaped: seq<Completion>,
                         accepted: multiset<Op>, counted: nat, size: nat, op: Op)
    requires Account(pending + [op], held, posted, taken, reaped, accepted, counted, size)
    ensures counted > 0 && Account(pending, held, posted, taken, reaped, accepted - multiset{op}, counted - 1, size)
  {
    hide Ops;
    assert multiset(pending + [op]) == multiset(pending) + multiset{op};
  }

  lemma AccountPost(pending: seq<Op>, held: multiset<Op>, posted: seq<Completion>, taken: nat,
                    reaped: seq<Completion>, accepted: multiset<Op>, counted: nat, size: nat, op: Op, res: int)
    requires Account(pending, held, posted, taken, reaped, accepted, counted, size) && op in held
    ensures Account(pending, held - multiset{op}, posted + [Completion(op, res)], taken, reaped, accepted, counted, size)
  {
    hide Ops;
    var c := Completion(op, res);
    assert (posted + [c])[taken..] == posted[taken..] + [c];
    OpsSnoc(posted[taken..], c);
    assert held == held - multiset{op} + multiset{op};
  }

  lemma AccountReap(pending: seq<Op>, held: multiset<Op>, posted: seq<Completion>, taken: nat,
                    reaped: seq<Completion>, accepted: multiset<Op>, counted: nat, size: nat)
    requires Account(pending, held, posted, taken, reaped, accepted, counted, size) && taken < |posted|
    ensures counted > 0
    ensures Account(pending, held, posted, taken + 1, reaped + [posted[taken]], accepted, counted - 1, size)
  {
    hide Ops;
    OpsCons(posted[taken..]);
    assert posted[taken..][1..] == posted[taken + 1..];
    OpsSnoc(reaped, posted[taken]);
  }

  lemma AccountRelease(pending: seq<Op>, held: multiset<Op>, posted: seq<Completion>, taken: nat,
                       reaped: seq<Completion>, accepted: multiset<Op>, counted: nat, size: nat)
    requires Account(pending, held, posted, taken, reaped, accepted, counted, size)
    ensures taken <= |posted| && Account(pending, held, posted[taken..], 0, reaped, accepted, counted, size)
  {
    hide Ops;
    assert posted[taken..][0..] == posted[taken..];
  }

  lemma {:induction false} Pow2Grows(k: nat, n: nat)
    requires k <= n
    ensures Pow2(k) <= Pow2(n)
    decreases n - k
  {
    if k < n {
      Pow2Grows(k, n - 1);
    }
  }

  lemma SameLow32(a: nat, b: nat)
    requires a <= b < a + WRAP
    ensures Low32(a) == Low32(b) <==> a == b
  {
  }

  lemma AddRemove(m: multiset<Op>, op: Op)
    ensures m + multiset{op} - multiset{op} == m + multiset{}
  {
  }

  class Ring {
    const sqOrder: nat
    const cqOrder: nat
    const sqe: array<Op>
    const sqArray: array<nat>
    const cqe: array<Completion>

    // 32-bit counters, shared with the kernel
    var sqHead: nat
    var sqTail: nat
    var cqHead: nat
    var cqTail: nat

    var inflight: nat

    /** The completions handed to the completion queue so far. */
    var reaped: seq<Completion>

    /** Operations in the kernel's hands. */
    var held: multiset<Op>

    // The same counters without wrapping, and what the rings hold.
    ghost var sqHeads: nat
    ghost var cqHeads: nat
    /** Published entries that the kernel has not taken yet. */
    ghost var pending: seq<Op>
    /** Completions that have not been released to the kernel yet. */
    ghost var posted: seq<Completion>
    /** How many of those the reaper has handed on already. */
    ghost var taken: nat
    /** 1 while an operation has been published that `inflight` does not count yet. */
    ghost var uncounted: nat
    /** What the last io_uring_enter returned. */
    ghost var lastEnter: int
    /** All operations accepted so far. */
    ghost var accepted: multiset<Op>

    ghost predicate Shape() {
      && sqOrder <= cqOrder < 32
      && sqe.Length == sqArray.Length == Pow2(sqOrder) && cqe.Length == Pow2(cqOrder) && sqe != sqArray
    }

    ghost predicate Submissions()
      requires Shape()
      reads this`sqHead, this`sqTail, this`sqHeads, this`pending, sqe, sqArray
    {
      && Holds<Op>(sqe[..], sqHeads, pending) && Holds<nat>(sqArray[..], sqHeads, Slots(sqHeads, |pending|, sqArray.Length))
      && sqHead == Low32(sqHeads) && sqTail == Low32(sqHeads + |pending|)
    }

    ghost predicate Completions()
      requires Shape()
      reads this`cqHead, this`cqTail, this`cqHeads, this`posted, cqe
    {
      && Holds<Completion>(cqe[..], cqHeads, posted) && cqHead == Low32(cqHeads) && cqTail == Low32(cqHeads + |posted|)
    }

    ghost predicate Conserved()
      reads this`pending, this`held, this`posted, this`taken, this`reaped, this`accepted, this`inflight, this`uncounted
    {
      Account(pending, held, posted, taken, reaped, accepted, inflight + uncounted, Pow2(sqOrder))
    }

    ghost predicate Valid()
      reads this, sqe, sqArray, cqe
    {
      Shape() && Submissions() && Completions() && Conserved()
    }

    /** Between calls: `inflight` counts every operation that has not been handed on. */
    ghost predicate AtRest()
      reads this, sqe, sqArray, cqe
    {
      Valid() && taken == 0 && uncounted == 0
    }

    constructor (sqOrder: nat, cqOrder: nat, start: nat)
      requires sqOrder <= cqOrder < 32
      ensures AtRest() && inflight == 0 && accepted == multiset{}
    {
      this.sqOrder, this.cqOrder := sqOrder, cqOrder;
      sqe, sqArray := new Op[Pow2(sqOrder)](_ => 0), new nat[Pow2(sqOrder)](_ => 0);
      cqe := new Completion[Pow2(cqOrder)](_ => Completion(0, 0));
      sqHead, sqTail, cqHead, cqTail := Low32(start), Low32(start), Low32(start), Low32(start);
      inflight, reaped := 0, [];
      sqHeads, cqHeads, pending, held, posted, taken := start, start, [], multiset{}, [], 0;
      accepted, lastEnter, uncounted := multiset{}, 0, 0;
    }

    // ----- Submitting

    /** Writes the entry at the tail and publishes it. */
    method Publish(op: Op)
      requires AtRest() && inflight < Pow2(sqOrder)
      modifies this`sqTail, this`pending, this`accepted, this`uncounted, sqe, sqArray
      ensures Valid() && uncounted == 1 && pending == old(pending) + [op] && accepted == old(accepted) + multiset{op}
    {
      hide Holds, And, Pow2, Slots, At, Low32, Account;
      Outstanding();
      ghost var n := |pending|;
      ghost var entries, indices := sqe[..], sqArray[..];
      Push<Op>(entries, sqHeads, pending, op);
      PushSlot(indices, sqHeads, n);
      AccountPublish(pending, held, posted, reaped, accepted, inflight + uncounted, Pow2(sqOrder), op);
      var tail := sqTail;
      Slot(sqHeads + n, sqOrder);
      var idx := And(tail, sqe.Length - 1);
      sqe[idx] := op;
      sqArray[idx] := idx;
      assert sqe[..] == entries[idx := op] && sqArray[..] == indices[idx := idx];
      sqTail := (tail + 1) % WRAP;
      Increment(sqHeads + n);
      pending, accepted, uncounted := pending + [op], accepted + multiset{op}, 1;
    }

    /** io_uring_enter with one entry to submit. A failed call has consumed nothing; a successful one
        has consumed at most one entry, the oldest, found through the index array. */
    method Enter() returns (r: int)
      requires Valid() && pending != []
      modifies this`sqHead, this`sqHeads, this`pending, this`held, this`lastEnter
      ensures Valid() && r == lastEnter
      ensures r <= 0 ==> pending == old(pending) && held == old(held) && sqHeads == old(sqHeads)
      ensures r > 0 ==> pending == old(pending[1..]) && held == old(held) + multiset{old(pending[0])}
    {
      hide Holds, Pow2, Slots, Low32, Account, Submissions, Completions;
      lastEnter := 1;
      if * {
        lastEnter := -1;
        return -1;
      } else if * {
        lastEnter := 0;
        return 0;
      }
      AccountEnter(pending, held, posted, taken, reaped, accepted, inflight + uncounted, Pow2(sqOrder));
      var op := Consume();
      held := held + multiset{op};
      r := 1;
    }

    /** The kernel reads the oldest entry. */
    method Consume() returns (op: Op)
      requires Shape() && Submissions() && pending != []
      modifies this`sqHead, this`sqHeads, this`pending
      ensures Submissions() && op == old(pending[0]) && pending == old(pending[1..])
    {
      hide Holds, And, Pow2, Slots, At, Low32;
      Slot(sqHeads, sqOrder);
      HoldsFits<Op>(sqe[..], sqHeads, pending);
      Pop<Op>(sqe[..], sqHeads, pending);
      PopSlot(sqArray[..], sqHeads, |pending|);
      var idx := sqArray[And(sqHead, sqe.Length - 1)];
      op := sqe[idx];
      sqHead := (sqHead + 1) % WRAP;
      Increment(sqHeads);
      sqHeads := sqHeads + 1;
      pending := pending[1..];
    }

    /** The call, with completions posted before, during and after it. */
    method EnterAmid() returns (r: int)
      requires Valid() && pending != []
      modifies this`sqHead, this`sqHeads, this`cqTail, this`pending, this`held, this`posted, this`lastEnter, cqe
      ensures Valid() && r == lastEnter && old(posted) <= posted
      ensures r <= 0 ==> pending == old(pending) && sqHeads == old(sqHeads)
      ensures r > 0 ==> pending == old(pending[1..])
    {
      hide Holds, And, Pow2, Slots, At, Low32, Account, Submissions, Completions;
      Kernel();
      r := Enter();
      Kernel();
    }

    /** Publishes an entry and calls the kernel; takes the entry back if the call failed. The kernel may
        complete operations at any point, this one included as soon as it has taken it. */
    method Offer(op: Op) returns (r: int)
      requires AtRest() && inflight < Pow2(sqOrder)
      modifies this`sqHead, this`sqTail, this`cqTail, this`sqHeads, this`pending, this`held, this`posted, this`lastEnter,
               this`accepted, this`uncounted, sqe, sqArray, cqe
      ensures Valid() && r == lastEnter && uncounted == (if r < 0 then 0 else 1)
      ensures accepted == old(accepted) + if r < 0 then multiset{} else multiset{op}
      ensures r < 0 ==> pending == old(pending)
      ensures r == 0 ==> pending == old(pending) + [op]
      ensures r > 0 ==> pending == (old(pending) + [op])[1..]
      ensures old(posted) <= posted
    {
      hide Holds, And, Pow2, Slots, At, Low32, Account, Submissions, Completions;
      var tail := sqTail;
      ghost var before, had := pending, accepted;
      TailIs();
      Publish(op);
      r := EnterAmid();
      if r < 0 {
        Unpublish(tail, before, op);
        AddRemove(had, op);
      }
    }

    /** uring_submit. An accepted operation is in the ring, in the kernel or already completed; a refused one
        leaves no trace. It is refused only when the ring's worth of operations is outstanding or the
        kernel fails. No entry that the kernel has yet to read is overwritten. */
    method Submit(op: Op) returns (ok: bool)
      requires AtRest()
      modifies this`sqHead, this`sqTail, this`cqTail, this`sqHeads, this`pending, this`held, this`posted, this`lastEnter,
               this`inflight, this`accepted, this`uncounted, sqe, sqArray, cqe
      ensures AtRest()
      ensures ok <==> old(inflight) < Pow2(sqOrder) && lastEnter >= 0
      ensures accepted == old(accepted) + if ok then multiset{op} else multiset{}
      ensures inflight == old(inflight) + if ok then 1 else 0
      ensures !ok ==> pending == old(pending)
      ensures old(posted) <= posted
    {
      hide Holds, And, Pow2, Slots, At, Low32, Account, Sub32, Submissions, Completions;
      Kernel();
      PendingCount();
      Outstanding();
      if inflight >= sqe.Length || Sub32(sqTail, sqHead) >= sqe.Length {
        return false;
      }
      var r := Offer(op);
      if r < 0 {
        return false;
      }
      inflight := inflight + 1;
      uncounted := 0;
      ok := true;
    }

    /** The wrapped difference is the number of entries waiting. */
    lemma PendingCount()
      requires Valid()
      ensures Sub32(sqTail, sqHead) == |pending| <= sqe.Length
    {
      hide And, Slots, Ops;
      Pow2Small(sqOrder);
      Difference(sqHeads + |pending|, sqHeads);
    }

    /** The stored tail is what the tail was before the entry. */
    method Unpublish(tail: nat, ghost before: seq<Op>, ghost op: Op)
      requires Valid() && uncounted == 1 && pending == before + [op] && tail == Low32(sqHeads + |before|)
      modifies this`sqTail, this`pending, this`accepted, this`uncounted
      ensures Valid() && uncounted == 0 && pending == before && accepted == old(accepted) - multiset{op}
    {
      hide Holds, Slots, At, Low32, Pow2, Account, Submissions, Completions;
      AccountUnpublish(before, held, posted, taken, reaped, accepted, inflight + uncounted, Pow2(sqOrder), op);
      TakeBack(tail, before);
      accepted, uncounted := accepted - multiset{op}, 0;
    }

    method TakeBack(tail: nat, ghost before: seq<Op>)
      requires Shape() && Submissions() && |before| <= |pending| && pending[..|before|] == before
      requires tail == Low32(sqHeads + |before|)
      modifies this`sqTail, this`pending
      ensures Submissions() && pending == before
    {
      hide Holds, Slots, At, Low32, Pow2;
      HoldsPrefix<Op>(sqe[..], sqHeads, pending, |before|);
      HoldsPrefix<nat>(sqArray[..], sqHeads, Slots(sqHeads, |pending|, sqArray.Length), |before|);
      SlotsPrefix(sqHeads, |pending|, |before|, sqArray.Length);
      sqTail := tail;
      pending := before;
    }

    lemma TailIs()
      requires Valid()
      ensures sqTail == Low32(sqHeads + |pending|)
    {
    }

    lemma Outstanding()
      requires AtRest()
      ensures |pending| <= inflight
    {
    }

    // ----- Completing

    /** The kernel finishes an operation. There is always room in the completion ring. */
    method Post(op: Op, res: int)
      requires Valid() && op in held
      modifies this`held, this`posted, this`cqTail, cqe
      ensures Valid() && held == old(held) - multiset{op} && posted == old(posted) + [Completion(op, res)]
      ensures |old(posted)| < cqe.Length
    {
      hide Holds, And, Slots, At, Low32, Account, Pow2;
      ghost var n := |posted|;
      ghost var entries := cqe[..];
      RoomToPost(op);
      AccountPost(pending, held, posted, taken, reaped, accepted, inflight + uncounted, Pow2(sqOrder), op, res);
      Push<Completion>(entries, cqHeads, posted, Completion(op, res));
      Slot(cqHeads + n, cqOrder);
      var idx := And(cqTail, cqe.Length - 1);
      cqe[idx] := Completion(op, res);
      assert cqe[..] == entries[idx := Completion(op, res)];
      Increment(cqHeads + n);
      cqTail := (cqTail + 1) % WRAP;
      posted := posted + [Completion(op, res)];
      held := held - multiset{op};
    }

    lemma RoomToPost(op: Op)
      requires Valid() && op in held
      ensures |posted| < cqe.Length
    {
      hide Ops, Holds;
      Pow2Grows(sqOrder, cqOrder);
      assert held == held - multiset{op} + multiset{op};
    }

    /** The kernel finishes whatever it likes. */
    method Kernel()
      requires Valid()
      modifies this`held, this`posted, this`cqTail, cqe
      ensures Valid() && old(posted) <= posted
    {
      hide Holds, And, Slots, At, Low32, Account, Pow2, Submissions;
      ghost var had := posted;
      while |held| > 0
        invariant Valid() && had <= posted
        decreases |held|
      {
        var more: bool := *;
        if !more {
          return;
        }
        var op: Op, res: int := *, *;
        if op in held {
          Post(op, res);
        } else {
          return;
        }
      }
    }

    /** Takes one completion off the ring at head. */
    method TakeOne(head: nat)
      requires Valid() && uncounted == 0 && taken < |posted| && head == Low32(cqHeads + taken)
      modifies this`reaped, this`inflight, this`taken
      ensures Valid() && taken == old(taken) + 1 && reaped == old(reaped) + [posted[old(taken)]]
    {
      hide Holds, And, Slots, At, Low32, Account, Pow2;
      ghost var before := reaped;
      Slot(cqHeads + taken, cqOrder);
      HoldsAt<Completion>(cqe[..], cqHeads, posted, taken);
      AccountReap(pending, held, posted, taken, reaped, accepted, inflight + uncounted, Pow2(sqOrder));
      var c := cqe[And(head, cqe.Length - 1)];
      reaped := reaped + [c];
      inflight := inflight - 1;
      taken := taken + 1;
    }

    /** Releases the entries taken to the kernel. */
    method Release(head: nat)
      requires Valid() && head == Low32(cqHeads + taken)
      modifies this`cqHead, this`cqHeads, this`posted, this`taken
      ensures Valid() && taken == 0 && posted == old(posted[taken..])
    {
      hide Holds, And, Slots, At, Low32, Account, Pow2;
      AccountRelease(pending, held, posted, taken, reaped, accepted, inflight + uncounted, Pow2(sqOrder));
      HoldsSuffix<Completion>(cqe[..], cqHeads, posted, taken);
      assert cqHeads + taken + |posted[taken..]| == cqHeads + |posted|;
      cqHead := head;
      cqHeads := cqHeads + taken;
      posted := posted[taken..];
      taken := 0;
    }

    /** uring_reap: every completion posted before the call is handed on, in order, each once; the kernel
        goes on posting meanwhile. */
    method Reap()
      requires AtRest()
      modifies this, cqe
      ensures AtRest() && old(reaped + posted) <= reaped
      ensures pending == old(pending) && accepted == old(accepted)
    {
      hide Holds, And, Slots, At, Low32, Account, Pow2, Submissions;
      ghost var first := reaped;
      Kernel();
      var head, tail := cqHead, cqTail;
      ghost var all := posted;
      PostedCount();
      assert posted[..0] == [];
      while head != tail
        invariant Valid() && taken <= |all| <= |posted| && all <= posted && |all| <= cqe.Length < WRAP
        invariant head == Low32(cqHeads + taken) && tail == Low32(cqHeads + |all|)
        invariant reaped == first + all[..taken]
        invariant pending == old(pending) && accepted == old(accepted) && cqHeads == old(cqHeads) && uncounted == 0
        decreases |all| - taken
      {
        SameLow32(cqHeads + taken, cqHeads + |all|);
        Kernel();
        TakeOne(head);
        assert all[..taken] == all[..taken - 1] + [all[taken - 1]];
        Increment(cqHeads + taken - 1);
        head := (head + 1) % WRAP;
      }
      SameLow32(cqHeads + taken, cqHeads + |all|);
      assert all[..taken] == all;
      Release(head);
    }

    lemma PostedCount()
      requires Valid()
      ensures |posted| <= cqe.Length < WRAP
    {
      hide Slots, Ops, And;
      Pow2Small(cqOrder);
    }
  }
}
