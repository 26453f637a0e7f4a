/** FixedSizeLockFreeQueue of src/talk/base/atomicops.h: one producer and one consumer, each
    a sequence of atomic steps on two 32-bit counters and an array, interleaved at will. */
module LockFreeQueue {
  import opened Common

  /** The counters and `size_t` have 32 bits where the class is defined. */
  const WORD: nat := 0x1_0000_0000

  /** Where a thread is: after the test of the counters, or after its access to the slot. */
  datatype Producer<T> = PIdle | PTested(v: T) | PStored(v: T)
  datatype Consumer<T> = CIdle | CTested | CLoaded(v: T)

  /** The queue with, for reference, all values ever pushed and popped. */
  datatype Queue<T> = Queue(
    capacity: nat, data: seq<T>, pushedCount: nat, poppedCount: nat,
    producer: Producer<T>, consumer: Consumer<T>,
    pushes: seq<T>, pops: seq<T>)

  function New<T>(data: seq<T>): Queue<T> {
    Queue(|data|, data, 0, 0, PIdle, CIdle, [], [])
  }

  function Sum(a: nat, b: nat): nat {
    (a + b) % WORD
  }

  predicate IsFull<T>(q: Queue<T>) {
    q.pushedCount == Sum(q.poppedCount, q.capacity)
  }

  predicate IsEmpty<T>(q: Queue<T>) {
    q.pushedCount == q.poppedCount
  }

  function Size<T>(q: Queue<T>): int {
    (q.pushedCount - q.poppedCount) % WORD
  }

  // ----- The atomic steps -----

  datatype Action<T> =
    | TestFull(v: T) | Store | CountPush           // PushBack(v)
    | TestEmpty | Load | CountPop                  // PopFront
    | EndPeek                                      // PeekFront stops after Load

  /** A step that its thread cannot take now, or a test that says no, changes nothing. */
  function Step<T>(q: Queue<T>, a: Action<T>): Queue<T> {
    match a
    case TestFull(v) =>
      if q.producer.PIdle? && q.capacity != 0 && !IsFull(q) then q.(producer := PTested(v)) else q
    case Store =>
      if q.producer.PTested? && q.capacity != 0 && q.pushedCount % q.capacity < |q.data| then
        q.(producer := PStored(q.producer.v), data := q.data[q.pushedCount % q.capacity := q.producer.v])
      else q
    case CountPush =>
      if q.producer.PStored? then
        q.(producer := PIdle, pushedCount := Sum(q.pushedCount, 1), pushes := q.pushes + [q.producer.v])
      else q
    case TestEmpty =>
      if q.consumer.CIdle? && q.capacity != 0 && !IsEmpty(q) then q.(consumer := CTested) else q
    case Load =>
      if q.consumer.CTested? && q.capacity != 0 && q.poppedCount % q.capacity < |q.data| then
        q.(consumer := CLoaded(q.data[q.poppedCount % q.capacity]))
      else q
    case CountPop =>
      if q.consumer.CLoaded? then
        q.(consumer := CIdle, poppedCount := Sum(q.poppedCount, 1), pops := q.pops + [q.consumer.v])
      else q
    case EndPeek =>
      if q.consumer.CLoaded? then q.(consumer := CIdle) else q
  }

  function Run<T>(q: Queue<T>, actions: seq<Action<T>>): Queue<T> {
    if actions == [] then q
    else Step(Run(q, actions[..|actions| - 1]), actions[|actions| - 1])
  }

  // ----- The promise -----

  /** Values come out in the order they went in, none lost or repeated; a value looked at is
      the oldest one; the size is what the header says; and full and empty are told truly. */
  ghost predicate Fifo<T>(q: Queue<T>) {
    && q.pops <= q.pushes
    && (q.consumer.CLoaded? ==> |q.pops| < |q.pushes| && q.consumer.v == q.pushes[|q.pops|])
    && Size(q) == |q.pushes| - |q.pops| && 0 <= Size(q) <= q.capacity
    && (IsFull(q) <==> |q.pushes| == |q.pops| + q.capacity)
    && (IsEmpty(q) <==> |q.pushes| == |q.pops|)
  }

  /** The slot of the value that was pushed as number `k`. */
  function Slot(k: nat, capacity: nat): nat
    requires capacity > 0
  {
    (k % WORD) % capacity
  }

  /** Numbers up to `limit` have slots that repeat only after a full round of the array. */
  predicate Regular(limit: nat, capacity: nat) {
    capacity == 0 || limit <= WORD || WORD % capacity == 0
  }

  ghost predicate Inv<T>(q: Queue<T>) {
    var (pushed, popped) := (|q.pushes|, |q.pops|);
    && q.capacity == |q.data| < WORD
    && q.pushedCount == pushed % WORD && q.poppedCount == popped % WORD
    && popped <= pushed <= popped + q.capacity
    && q.pops == q.pushes[..popped]
    && (!q.producer.PIdle? ==> pushed < popped + q.capacity)
    && (!q.consumer.CIdle? ==> popped < pushed)
    && (q.consumer.CLoaded? ==> q.consumer.v == q.pushes[popped])
    && (q.capacity > 0 ==> Kept(q))
  }

  /** No slot is overwritten before its value has been popped. */
  ghost predicate Kept<T>(q: Queue<T>)
    requires q.capacity == |q.data| > 0
  {
    && (forall k: nat :: |q.pops| <= k < |q.pushes| ==> q.data[Slot(k, q.capacity)] == q.pushes[k])
    && (q.producer.PStored? ==> q.data[Slot(|q.pushes|, q.capacity)] == q.producer.v)
  }

  // ----- Slots -----

  lemma ModUnique(x: int, c: nat, q: int, r: nat)
    requires r < c && x == c * q + r
    ensures x % c == r
  {
    var (q', r') := (x / c, x % c);
    assert c * (q' - q) == r - r';
    if q' > q { MulAtLeast(c, q' - q); }
    if q > q' { MulAtLeast(c, q - q'); }
  }

  lemma SlotIsModulo(k: nat, c: nat, limit: nat)
    requires 0 < c && k < limit && Regular(limit, c)
    ensures Slot(k, c) == k % c
  {
    if limit > WORD {
      var (m, d, r) := (WORD / c, k / WORD, k % WORD);
      var (e, f) := (r / c, r % c);
      assert WORD == c * m && r == c * e + f;
      assert k == (c * m) * d + r == c * (m * d) + (c * e + f);
      assert c * (m * d) + c * e == c * (m * d + e);
      ModUnique(k, c, m * d + e, f);
    }
  }

  lemma SlotsDiffer(j: nat, k: nat, c: nat, limit: nat)
    requires 0 < c && j < k < j + c && k < limit && Regular(limit, c)
    ensures Slot(j, c) != Slot(k, c)
  {
    hide Slot;
    SlotIsModulo(j, c, limit);
    SlotIsModulo(k, c, limit);
    var (qj, qk) := (j / c, k / c);
    if j % c == k % c {
      assert c * (qk - qj) == k - j;
      if qk > qj { MulAtLeast(c, qk - qj); }
      if qj > qk { MulAtLeast(c, qj - qk); }
    }
  }

  lemma CountersTell(a: nat, b: nat, c: nat)
    requires a <= b <= a + c && c < WORD
    ensures (b % WORD == a % WORD) <==> a == b
    ensures (b % WORD == Sum(a % WORD, c)) <==> b == a + c
    ensures (b % WORD - a % WORD) % WORD == b - a
  {
  }

  lemma CountNext(n: nat)
    ensures Sum(n % WORD, 1) == (n + 1) % WORD
  {
  }

  // ----- Every step keeps the invariant -----

  lemma StoreKeeps<T>(q: Queue<T>)
    requires Inv(q) && q.producer.PTested? && Regular(|q.pushes| + 1, q.capacity)
    ensures Inv(Step(q, Store))
  {
    var (q', n) := (Step(q, Store), |q.pushes|);
    forall k: nat | |q.pops| <= k < n
      ensures q'.data[Slot(k, q.capacity)] == q.pushes[k]
    {
      SlotsDiffer(k, n, q.capacity, n + 1);
    }
  }

  lemma CountPushKeeps<T>(q: Queue<T>)
    requires Inv(q) && q.producer.PStored?
    ensures Inv(Step(q, CountPush))
  {
    hide Slot, Sum;
    CountNext(|q.pushes|);
    var q' := Step(q, CountPush);
    assert q'.pushes[..|q.pops|] == q.pushes[..|q.pops|];
    assert forall k: nat :: |q.pops| <= k < |q.pushes| ==> q'.pushes[k] == q.pushes[k];
  }

  lemma CountPopKeeps<T>(q: Queue<T>)
    requires Inv(q) && q.consumer.CLoaded?
    ensures Inv(Step(q, CountPop))
  {
    hide Slot, Sum;
    CountNext(|q.pops|);
    assert q.pushes[..|q.pops| + 1] == q.pushes[..|q.pops|] + [q.pushes[|q.pops|]];
  }

  lemma LoadKeeps<T>(q: Queue<T>)
    requires Inv(q) && q.consumer.CTested?
    ensures Inv(Step(q, Load))
  {
    assert q.data[Slot(|q.pops|, q.capacity)] == q.pushes[|q.pops|];
  }

  lemma StepKeeps<T>(q: Queue<T>, a: Action<T>)
    requires Inv(q) && Regular(|Step(q, a).pushes| + 1, q.capacity)
    ensures Inv(Step(q, a)) && Step(q, a).capacity == q.capacity
  {
    hide Slot;
    CountersTell(|q.pops|, |q.pushes|, q.capacity);
    match a {
      case Store => if q.producer.PTested? { StoreKeeps(q); }
      case CountPush => if q.producer.PStored? { CountPushKeeps(q); }
      case CountPop => if q.consumer.CLoaded? { CountPopKeeps(q); }
      case Load => if q.consumer.CTested? { LoadKeeps(q); }
      case _ =>
    }
  }

  lemma InvIsFifo<T>(q: Queue<T>)
    requires Inv(q)
    ensures Fifo(q)
  {
    CountersTell(|q.pops|, |q.pushes|, q.capacity);
  }

  predicate OfConsumer<T>(a: Action<T>) {
    a.TestEmpty? || a.Load? || a.CountPop? || a.EndPeek?
  }

  /** One thread leaves alone what belongs to the other. */
  lemma {:induction false} OtherThread<T>(q: Queue<T>, actions: seq<Action<T>>)
    ensures var r := Run(q, actions);
            && r.capacity == q.capacity && |r.data| == |q.data| && q.pushes <= r.pushes && q.pops <= r.pops
            && ((forall a :: a in actions ==> OfConsumer(a)) ==> r.pushes == q.pushes && r.producer == q.producer)
            && ((forall a :: a in actions ==> !OfConsumer(a)) ==> r.pops == q.pops && r.consumer == q.consumer)
    decreases |actions|
  {
    if actions != [] {
      var (first, last) := (actions[..|actions| - 1], actions[|actions| - 1]);
      assert last in actions && forall a :: a in first ==> a in actions;
      OtherThread(q, first);
    }
  }

  /** Any state that keeps the invariant goes on keeping it. */
  lemma {:induction false} RunKeepsFrom<T>(q: Queue<T>, actions: seq<Action<T>>)
    requires Inv(q) && Regular(|Run(q, actions).pushes| + 1, q.capacity)
    ensures Inv(Run(q, actions)) && Run(q, actions).capacity == q.capacity
    decreases |actions|
  {
    if actions != [] {
      hide Inv, Regular, Step;
      var (first, a) := (actions[..|actions| - 1], actions[|actions| - 1]);
      PushesStay(Run(q, first), a);
      FewerAreRegular(|Run(q, first).pushes| + 1, |Run(q, actions).pushes| + 1, q.capacity);
      RunKeepsFrom(q, first);
      StepKeeps(Run(q, first), a);
    }
  }

  lemma PushesStay<T>(q: Queue<T>, a: Action<T>)
    ensures q.pushes <= Step(q, a).pushes
  {
  }

  lemma FewerAreRegular(fewer: nat, limit: nat, capacity: nat)
    requires Regular(limit, capacity) && fewer <= limit
    ensures Regular(fewer, capacity)
  {
  }

  lemma RunKeeps<T>(data: seq<T>, actions: seq<Action<T>>)
    requires |data| < WORD && Regular(|Run(New(data), actions).pushes| + 1, |data|)
    ensures Inv(Run(New(data), actions)) && Run(New(data), actions).capacity == |data|
  {
    RunKeepsFrom(New(data), actions);
  }

  /** Every interleaving is first-in first-out: always if the capacity divides 2^32, and
      otherwise for as long as fewer than 2^32 values have been pushed. */
  lemma EveryRunIsFifo<T>(data: seq<T>, actions: seq<Action<T>>)
    requires |data| < WORD
    requires |data| == 0 || WORD % |data| == 0 || |Run(New(data), actions).pushes| < WORD
    ensures Fifo(Run(New(data), actions))
  {
    RunKeeps(data, actions);
    InvIsFifo(Run(New(data), actions));
  }

  // ----- Whole calls, whatever the other thread does meanwhile -----

  /** PushBack adds its value as the newest exactly if there was room when it tested, whatever the
      consumer does between its steps. */
  lemma PushBackAdds<T>(q: Queue<T>, v: T, after: seq<Action<T>>, later: seq<Action<T>>)
    requires Inv(q) && q.producer.PIdle?
    requires forall a :: a in after + later ==> OfConsumer(a)
    ensures var stored := Step(Run(Step(q, TestFull(v)), after), Store);
            var r := Step(Run(stored, later), CountPush);
            && r.producer.PIdle?
            && r.pushes == if |q.pushes| - |q.pops| < q.capacity then q.pushes + [v] else q.pushes
  {
    hide Slot, Kept;
    CountersTell(|q.pops|, |q.pushes|, q.capacity);
    var tested := Step(q, TestFull(v));
    OtherThread(tested, after);
    var waiting := Run(tested, after);
    var stored := Step(waiting, Store);
    if tested.producer.PTested? {
      assert waiting.pushedCount % waiting.capacity < |waiting.data|;
    }
    OtherThread(stored, later);
  }

  /** PopFront takes the oldest value exactly if there was one when it tested, and PeekFront shows it. */
  lemma PopFrontTakes<T>(q: Queue<T>, after: seq<Action<T>>, later: seq<Action<T>>)
    requires Inv(q) && q.consumer.CIdle?
    requires forall a :: a in after + later ==> !OfConsumer(a)
    requires Regular(|Run(Step(q, TestEmpty), after).pushes| + 1, q.capacity)
    ensures var loaded := Step(Run(Step(q, TestEmpty), after), Load);
            var shown := Run(loaded, later);
            if |q.pops| < |q.pushes| then
              && shown.consumer == CLoaded(q.pushes[|q.pops|])
              && Step(shown, CountPop).pops == q.pops + [q.pushes[|q.pops|]] && Step(shown, EndPeek).pops == q.pops
            else
              shown.consumer.CIdle? && Step(shown, CountPop).pops == q.pops
  {
    hide Slot, Kept;
    CountersTell(|q.pops|, |q.pushes|, q.capacity);
    var tested := Step(q, TestEmpty);
    StepKeeps(q, TestEmpty) by {
      FewerAreRegular(|q.pushes| + 1, |Run(tested, after).pushes| + 1, q.capacity) by { OtherThread(tested, after); }
    }
    OtherThread(tested, after);
    RunKeepsFrom(tested, after);
    var ready := Run(tested, after);
    if ready.consumer.CTested? {
      LoadKeeps(ready);
      assert ready.poppedCount % ready.capacity < |ready.data|;
    }
    OtherThread(Step(ready, Load), later);
  }

  // ----- Otherwise the order breaks when the counters wrap around -----

  lemma {:induction false} RunAppend<T>(q: Queue<T>, a: seq<Action<T>>, b: seq<Action<T>>)
    ensures Run(q, a + b) == Run(Run(q, a), b)
    decreases |b|
  {
    hide Step;
    if b == [] {
      assert a + b == a;
    } else {
      var n := |a + b| - 1;
      assert (a + b)[..n] == a + b[..|b| - 1];
      RunAppend(q, a, b[..|b| - 1]);
    }
  }

  ghost predicate AtRest(q: Queue<int>, capacity: nat, pushed: nat, popped: nat) {
    && Inv(q) && q.capacity == capacity
    && q.producer.PIdle? && q.consumer.CIdle?
    && |q.pushes| == pushed && |q.pops| == popped
    && forall k :: 0 <= k < pushed ==> q.pushes[k] == 0
  }

  /** PushBack on a queue that is not full. */
  lemma PushZero(q: Queue<int>, capacity: nat, pushed: nat, popped: nat)
    requires AtRest(q, capacity, pushed, popped) && pushed < popped + capacity && pushed < WORD
    ensures AtRest(Run(q, [TestFull(0), Store, CountPush]), capacity, pushed + 1, popped)
  {
    hide Slot;
    var q1 := Step(q, TestFull(0));
    StepKeeps(q, TestFull(0));
    CountersTell(popped, pushed, capacity);
    StoreKeeps(q1);
    var q2 := Step(q1, Store);
    CountPushKeeps(q2);
    Run3(q, TestFull(0), Store, CountPush);
  }

  /** PopFront on a queue that is not empty. */
  lemma PopZero(q: Queue<int>, capacity: nat, pushed: nat, popped: nat)
    requires AtRest(q, capacity, pushed, popped) && popped < pushed <= WORD
    ensures AtRest(Run(q, [TestEmpty, Load, CountPop]), capacity, pushed, popped + 1)
  {
    hide Slot;
    CountersTell(popped, pushed, capacity);
    var q1 := Step(q, TestEmpty);
    LoadKeeps(q1);
    var q2 := Step(q1, Load);
    CountPopKeeps(q2);
    Run3(q, TestEmpty, Load, CountPop);
  }

  lemma Run3<T>(q: Queue<T>, a: Action<T>, b: Action<T>, c: Action<T>)
    ensures Run(q, [a, b, c]) == Step(Step(Step(q, a), b), c)
  {
    assert [a, b, c][..2] == [a, b] && [a, b][..1] == [a] && [a][..0] == [];
    assert Run(q, [a]) == Step(q, a);
    assert Run(q, [a, b]) == Step(Run(q, [a]), b);
  }

  /** Pushing and popping in turn brings both counters anywhere up to the wrap. */
  lemma {:induction false} Rounds(data: seq<int>, n: nat) returns (actions: seq<Action<int>>)
    requires 0 < |data| < WORD && n < WORD
    ensures AtRest(Run(New(data), actions), |data|, n, n)
    decreases n
  {
    if n == 0 {
      actions := [];
    } else {
      hide Run;
      var first := Rounds(data, n - 1);
      var (push, pop) := ([TestFull(0), Store, CountPush], [TestEmpty, Load, CountPop]);
      var q := Run(New(data), first);
      PushZero(q, |data|, n - 1, n - 1);
      PopZero(Run(q, push), |data|, n, n - 1);
      actions := (first + push) + pop;
      RunAppend(New(data), first, push);
      RunAppend(New(data), first + push, pop);
    }
  }

  /** Then pushes alone fill it. */
  lemma {:induction false} Fill(data: seq<int>, start: seq<Action<int>>, pushed: nat, popped: nat, more: nat)
    returns (actions: seq<Action<int>>)
    requires AtRest(Run(New(data), start), |data|, pushed, popped)
    requires pushed + more <= popped + |data| && pushed + more <= WORD
    ensures AtRest(Run(New(data), actions), |data|, pushed + more, popped)
    decreases more
  {
    hide Run;
    if more == 0 {
      actions := start;
    } else {
      var push := [TestFull(0), Store, CountPush];
      PushZero(Run(New(data), start), |data|, pushed, popped);
      RunAppend(New(data), start, push);
      actions := Fill(data, start + push, pushed + 1, popped, more - 1);
    }
  }

  /** One more push, of a 1, lands in the slot of the oldest 0, and the next pop takes it. */
  lemma WrapBreaks(q: Queue<int>, r: nat)
    requires 0 < r < q.capacity && (WORD - r) % q.capacity == 0
    requires AtRest(q, q.capacity, WORD, WORD - r)
    ensures !Fifo(Run(Run(q, [TestFull(1), Store, CountPush]), [TestEmpty, Load, CountPop]))
  {
    hide Run, Kept, Slot, Fifo, Size;
    var first := |q.pops|;
    assert q.pushedCount == 0 && q.poppedCount == first;
    var q1 := Step(q, TestFull(1));
    assert q1 == q.(producer := PTested(1)) by { assert Sum(first, q.capacity) == q.capacity - r; }
    var q2 := Step(q1, Store);
    assert q2 == q.(producer := PStored(1), data := q.data[0 := 1]);
    var q3 := Step(q2, CountPush);
    assert q3 == q.(data := q.data[0 := 1], pushedCount := 1, pushes := q.pushes + [1]);
    var q4 := Step(q3, TestEmpty);
    assert q4 == q3.(consumer := CTested);
    var q5 := Step(q4, Load);
    assert q5 == q3.(consumer := CLoaded(1));
    var q6 := Step(q5, CountPop);
    assert q6.pops == q.pops + [1] && q6.pushes == q.pushes + [1];
    Run3(q, TestFull(1), Store, CountPush);
    Run3(q3, TestEmpty, Load, CountPop);
    assert !(q6.pops <= q6.pushes) by { assert q6.pops[first] == 1 && q6.pushes[first] == 0; }
    NotFifo(q6);
  }

  lemma NotFifo<T>(q: Queue<T>)
    requires !(q.pops <= q.pushes)
    ensures !Fifo(q)
  {
  }

  /** Exactly when all runs are first-in first-out, for any non-zero capacity. */
  lemma FifoIffCapacityDivides(data: seq<int>)
    requires 0 < |data| < WORD
    ensures (forall actions :: Fifo(Run(New(data), actions))) <==> WORD % |data| == 0
  {
    var (c, r) := (|data|, WORD % |data|);
    if r == 0 {
      forall actions ensures Fifo(Run(New(data), actions)) {
        EveryRunIsFifo(data, actions);
      }
    } else {
      assert (WORD - r) % c == 0 by { ModUnique(WORD - r, c, WORD / c, 0); }
      var rounds := Rounds(data, WORD - r);
      var full := Fill(data, rounds, WORD - r, WORD - r, r);
      WrapBreaks(Run(New(data), full), r);
      var (push, pop) := ([TestFull(1), Store, CountPush], [TestEmpty, Load, CountPop]);
      RunAppend(New(data), full, push);
      RunAppend(New(data), full + push, pop);
      assert !Fifo(Run(New(data), (full + push) + pop));
    }
  }
}
