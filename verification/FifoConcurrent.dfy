/** The ring FIFO shared by one producer and one consumer that interleave freely, down to
    the single units that a block is copied in. Accesses to put_pos, get_pos and the buffer
    are sequentially consistent; the producer only puts, the consumer gets and flushes. */
module FifoConcurrent {
  import opened Basics
  import opened Fifo

  type Block = seq<Byte>

  /** Block size and count, as given to init. */
  datatype Config = Config(size: nat, count: nat)

  ghost predicate Usable(c: Config) {
    1 <= c.count < U32
  }

  /** Inside put: the caller's block, put_next_pos, and how much has been copied. */
  datatype Producer = PutIdle | PutCopying(block: Block, next: nat, done: nat)

  /** Inside get: what has been copied out. Inside flush: the value read from put_pos. */
  datatype Consumer = GetIdle | GetCopying(data: Block) | Flushing(pos: nat, ghost target: nat)

  /** How a block left the queue. */
  datatype Taken = Got(block: Block) | Flushed(block: Block)

  /** The shared memory, the two callers, and two histories: the blocks whose put has
      completed, and what became of those that left. */
  datatype State = State(put_pos: nat, get_pos: nat, buffer: seq<Byte>, producer: Producer, consumer: Consumer,
                         accepted: seq<Block>, taken: seq<Taken>)

  datatype Action =
    | CheckPut(block: Block) | CopyPut | PublishPut
    | CheckGet | CopyGet | PublishGet
    | ReadFlush | WriteFlush

  /** The next copy unit of inline_memcpy: a word while one fits, then single bytes. */
  function Unit(rem: nat): nat {
    if rem >= 4 then 4 else 1
  }

  function NextPos(pos: nat, c: Config): nat {
    if pos + 1 == c.count then 0 else pos + 1
  }

  ghost predicate Enabled(c: Config, s: State, a: Action) {
    match a
    case CheckPut(block) => s.producer.PutIdle? && |block| == c.size
    case CopyPut => s.producer.PutCopying? && s.producer.done < c.size
    case PublishPut => s.producer.PutCopying? && s.producer.done >= c.size
    case CheckGet => s.consumer.GetIdle?
    case CopyGet => s.consumer.GetCopying? && |s.consumer.data| < c.size
    case PublishGet => s.consumer.GetCopying? && |s.consumer.data| >= c.size
    case ReadFlush => s.consumer.GetIdle?
    case WriteFlush => s.consumer.Flushing?
  }

  /** The buffer with `unit` stored from index `at` on. */
  ghost function Stored(buffer: seq<Byte>, at: nat, unit: seq<Byte>): (now: seq<Byte>)
    ensures |now| == |buffer|
  {
    if at + |unit| <= |buffer| then buffer[..at] + unit + buffer[at + |unit|..] else buffer
  }

  ghost function Fetched(buffer: seq<Byte>, at: nat, len: nat): seq<Byte> {
    if at + len <= |buffer| then buffer[at..at + len] else []
  }

  /** One atomic step. */
  ghost function Step(c: Config, s: State, a: Action): State
    requires Enabled(c, s, a)
  {
    match a
    case CheckPut(block) =>
      if s.get_pos != NextPos(s.put_pos, c) then s.(producer := PutCopying(block, NextPos(s.put_pos, c), 0)) else s
    case CopyPut =>
      var p := s.producer;
      var u := Unit(c.size - p.done);
      var unit := if p.done + u <= |p.block| then p.block[p.done..p.done + u] else [];
      s.(buffer := Stored(s.buffer, Offset(s.put_pos, c.size) + p.done, unit), producer := p.(done := p.done + u))
    case PublishPut =>
      s.(put_pos := s.producer.next, producer := PutIdle, accepted := s.accepted + [s.producer.block])
    case CheckGet =>
      if s.put_pos != s.get_pos then s.(consumer := GetCopying([])) else s
    case CopyGet =>
      var data := s.consumer.data;
      s.(consumer := GetCopying(data + Fetched(s.buffer, Offset(s.get_pos, c.size) + |data|, Unit(c.size - |data|))))
    case PublishGet =>
      s.(get_pos := NextPos(s.get_pos, c), consumer := GetIdle, taken := s.taken + [Got(s.consumer.data)])
    case ReadFlush =>
      s.(consumer := Flushing(s.put_pos, |s.accepted|))
    case WriteFlush =>
      s.(get_pos := s.consumer.pos, consumer := GetIdle,
         taken := s.taken + Dropped(s.accepted, |s.taken|, s.consumer.target))
  }

  /** What a flush up to `target` discards. */
  ghost function Dropped(accepted: seq<Block>, taken: nat, target: nat): (d: seq<Taken>) {
    if taken <= target <= |accepted| then
      seq(target - taken, i requires 0 <= i < target - taken => Flushed(accepted[taken + i]))
    else []
  }

  /** Ring position of the i-th block ever put. */
  ghost function Pos(i: nat, c: Config): nat {
    if i == 0 then 0 else NextPos(Pos(i - 1, c), c)
  }

  lemma {:induction false} PosInRange(i: nat, c: Config)
    requires Usable(c)
    ensures Pos(i, c) < c.count
  {
    if i > 0 {
      PosInRange(i - 1, c);
    }
  }

  lemma {:induction false} PosAhead(i: nat, d: nat, c: Config)
    requires Usable(c) && d < c.count
    ensures Pos(i, c) < c.count && Pos(i + d, c) == Ahead(Pos(i, c), d, c.count)
    decreases d
  {
    PosInRange(i, c);
    if d > 0 {
      PosAhead(i, d - 1, c);
    }
  }

  /** Fewer than `count` apart, two blocks have different slots, which do not overlap. */
  lemma PosApart(i: nat, j: nat, c: Config)
    requires Usable(c) && i < j < i + c.count
    ensures Pos(i, c) != Pos(j, c)
    ensures var x, y := Offset(Pos(i, c), c.size), Offset(Pos(j, c), c.size);
            x + c.size <= y || y + c.size <= x
  {
    PosAhead(i, j - i, c);
    if Pos(i, c) < Pos(j, c) {
      SlotsApart(Pos(i, c), Pos(j, c), c.size);
    } else {
      SlotsApart(Pos(j, c), Pos(i, c), c.size);
    }
  }

  lemma PosWithin(i: nat, c: Config)
    requires Usable(c)
    ensures Offset(Pos(i, c), c.size) + c.size <= Offset(c.count, c.size)
  {
    PosInRange(i, c);
    SlotsApart(Pos(i, c), c.count, c.size);
  }

  // ----- the invariant -----

  ghost predicate CountersOk(c: Config, s: State) {
    && |s.taken| <= |s.accepted| < |s.taken| + c.count
    && s.put_pos == Pos(|s.accepted|, c) && s.get_pos == Pos(|s.taken|, c)
    && |s.buffer| >= Offset(c.count, c.size)
  }

  /** The blocks in the queue are in their slots, whole. */
  ghost predicate QueueOk(c: Config, s: State) {
    && (forall i :: 0 <= i < |s.accepted| ==> |s.accepted[i]| == c.size)
    && forall i :: |s.taken| <= i < |s.accepted| ==> IsAt(s.buffer, Offset(Pos(i, c), c.size), c.size, s.accepted[i])
  }

  /** The blocks that left are those that were put, in order. */
  ghost predicate HistoryOk(s: State) {
    |s.taken| <= |s.accepted| && forall i :: 0 <= i < |s.taken| ==> s.taken[i].block == s.accepted[i]
  }

  ghost predicate ProducerOk(c: Config, s: State) {
    var p := s.producer;
    p.PutCopying? ==>
      && |p.block| == c.size && p.done <= c.size
      && |s.accepted| + 1 < |s.taken| + c.count && p.next == Pos(|s.accepted| + 1, c)
      && IsAt(s.buffer, Offset(s.put_pos, c.size), p.done, p.block[..p.done])
  }

  ghost predicate ConsumerOk(c: Config, s: State) {
    match s.consumer
    case GetIdle => true
    case GetCopying(data) =>
      |s.taken| < |s.accepted| && |data| <= c.size && |s.accepted[|s.taken|]| == c.size &&
          data == s.accepted[|s.taken|][..|data|]
    case Flushing(pos, target) =>
      |s.taken| <= target <= |s.accepted| && pos == Pos(target, c)
  }

  ghost predicate Inv(c: Config, s: State) {
    CountersOk(c, s) && QueueOk(c, s) && HistoryOk(s) && ProducerOk(c, s) && ConsumerOk(c, s)
  }

  ghost predicate Init(c: Config, s: State) {
    && s.put_pos == 0 && s.get_pos == 0 && |s.buffer| >= Offset(c.count, c.size)
    && s.producer == PutIdle && s.consumer == GetIdle && s.accepted == [] && s.taken == []
  }

  lemma StoredOutside(buffer: seq<Byte>, at: nat, unit: seq<Byte>, lo: nat, size: nat, block: Block)
    requires IsAt(buffer, lo, size, block) && (lo + size <= at || at + |unit| <= lo)
    ensures IsAt(Stored(buffer, at, unit), lo, size, block)
  {
    if at + |unit| <= |buffer| {
      var now := Stored(buffer, at, unit);
      assert forall k :: lo <= k < lo + size ==> now[k] == buffer[k];
      assert now[lo..lo + size] == buffer[lo..lo + size];
    }
  }

  lemma StoredExtends(buffer: seq<Byte>, lo: nat, done: nat, u: nat, block: Block)
    requires done + u <= |block| && lo + done + u <= |buffer|
    requires IsAt(buffer, lo, done, block[..done])
    ensures IsAt(Stored(buffer, lo + done, block[done..done + u]), lo, done + u, block[..done + u])
  {
    var now := Stored(buffer, lo + done, block[done..done + u]);
    assert now[lo..lo + done] == buffer[lo..lo + done];
    assert now[lo..lo + done + u] == now[lo..lo + done] + block[done..done + u];
    assert block[..done + u] == block[..done] + block[done..done + u];
  }

  /** Fetching the next unit of a block extends what has been fetched of it. */
  lemma FetchedExtends(buffer: seq<Byte>, lo: nat, block: Block, done: nat, u: nat)
    requires IsAt(buffer, lo, |block|, block) && done + u <= |block|
    ensures block[..done] + Fetched(buffer, lo + done, u) == block[..done + u]
  {
    SubSlice(buffer, lo, |block|, done, u);
    assert block[..done + u] == block[..done] + block[done..done + u];
  }

  lemma SubSlice(buffer: seq<Byte>, lo: nat, size: nat, from: nat, len: nat)
    requires lo + size <= |buffer| && from + len <= size
    ensures buffer[lo..lo + size][from..from + len] == buffer[lo + from..lo + from + len]
  {
    var x, y := buffer[lo..lo + size][from..from + len], buffer[lo + from..lo + from + len];
    forall k | 0 <= k < len ensures x[k] == y[k] {
      assert buffer[lo..lo + size][from + k] == buffer[lo + from + k];
    }
  }

  /** The unit goes to the slot of the next block to be accepted, outside every queued one. */
  lemma CopyPutKeepsQueue(c: Config, s: State, at: nat, unit: seq<Byte>)
    requires Usable(c) && CountersOk(c, s) && QueueOk(c, s)
    requires Offset(s.put_pos, c.size) <= at && at + |unit| <= Offset(s.put_pos, c.size) + c.size
    requires |s.accepted| + 1 < |s.taken| + c.count
    ensures QueueOk(c, s.(buffer := Stored(s.buffer, at, unit)))
  {
    forall i | |s.taken| <= i < |s.accepted|
      ensures IsAt(Stored(s.buffer, at, unit), Offset(Pos(i, c), c.size), c.size, s.accepted[i])
    {
      PosApart(i, |s.accepted|, c);
      StoredOutside(s.buffer, at, unit, Offset(Pos(i, c), c.size), c.size, s.accepted[i]);
    }
  }

  lemma CopyPutKeepsProducer(c: Config, s: State) returns (at: nat, unit: seq<Byte>)
    requires Usable(c) && CountersOk(c, s) && ProducerOk(c, s) && Enabled(c, s, CopyPut)
    ensures Offset(s.put_pos, c.size) <= at && at + |unit| <= Offset(s.put_pos, c.size) + c.size
    ensures var t := Step(c, s, CopyPut);
            t == s.(buffer := Stored(s.buffer, at, unit), producer := t.producer) && ProducerOk(c, t)
  {
    hide Stored, Offset;
    var p := s.producer;
    var u, lo := Unit(c.size - p.done), Offset(s.put_pos, c.size);
    PosWithin(|s.accepted|, c);
    StoredExtends(s.buffer, lo, p.done, u, p.block);
    at, unit := lo + p.done, p.block[p.done..p.done + u];
  }

  lemma CopyPutKeepsInv(c: Config, s: State)
    requires Usable(c) && Inv(c, s) && Enabled(c, s, CopyPut)
    ensures Inv(c, Step(c, s, CopyPut))
  {
    var at, unit := CopyPutKeepsProducer(c, s);
    CopyPutKeepsQueue(c, s, at, unit);
  }

  lemma PublishPutKeepsInv(c: Config, s: State)
    requires Usable(c) && Inv(c, s) && Enabled(c, s, PublishPut)
    ensures Inv(c, Step(c, s, PublishPut))
  {
    assert s.producer.block[..c.size] == s.producer.block;
  }

  lemma CopyGetKeepsInv(c: Config, s: State)
    requires Usable(c) && Inv(c, s) && Enabled(c, s, CopyGet)
    ensures Inv(c, Step(c, s, CopyGet))
  {
    var data, G := s.consumer.data, |s.taken|;
    var u, lo := Unit(c.size - |data|), Offset(s.get_pos, c.size);
    FetchedExtends(s.buffer, lo, s.accepted[G], |data|, u);
  }

  lemma PublishGetKeepsInv(c: Config, s: State)
    requires Usable(c) && Inv(c, s) && Enabled(c, s, PublishGet)
    ensures Inv(c, Step(c, s, PublishGet))
  {
    var G := |s.taken|;
    assert s.accepted[G][..c.size] == s.accepted[G];
  }

  lemma WriteFlushKeepsInv(c: Config, s: State)
    requires Usable(c) && Inv(c, s) && Enabled(c, s, WriteFlush)
    ensures Inv(c, Step(c, s, WriteFlush))
  {
  }

  lemma CheckPutKeepsInv(c: Config, s: State, block: Block)
    requires Usable(c) && Inv(c, s) && Enabled(c, s, CheckPut(block))
    ensures Inv(c, Step(c, s, CheckPut(block)))
    ensures Step(c, s, CheckPut(block)).producer.PutIdle? <==> |s.accepted| - |s.taken| == c.count - 1
  {
    var P, G := |s.accepted|, |s.taken|;
    PosWithin(P, c);
    PosInRange(P, c);
    if P + 1 < G + c.count {
      PosApart(G, P + 1, c);
    } else {
      PosAhead(G, c.count - 1, c);
    }
  }

  lemma CheckGetKeepsInv(c: Config, s: State)
    requires Usable(c) && Inv(c, s) && Enabled(c, s, CheckGet)
    ensures Inv(c, Step(c, s, CheckGet))
    ensures Step(c, s, CheckGet).consumer.GetIdle? <==> s.accepted[|s.taken|..] == []
  {
    if |s.taken| < |s.accepted| {
      PosApart(|s.taken|, |s.accepted|, c);
    }
  }

  lemma StepKeepsInv(c: Config, s: State, a: Action)
    requires Usable(c) && Inv(c, s) && Enabled(c, s, a)
    ensures Inv(c, Step(c, s, a))
  {
    match a
    case CheckPut(block) => CheckPutKeepsInv(c, s, block);
    case CopyPut => CopyPutKeepsInv(c, s);
    case PublishPut => PublishPutKeepsInv(c, s);
    case CheckGet => CheckGetKeepsInv(c, s);
    case CopyGet => CopyGetKeepsInv(c, s);
    case PublishGet => PublishGetKeepsInv(c, s);
    case ReadFlush =>
    case WriteFlush => WriteFlushKeepsInv(c, s);
  }

  // ----- whole runs -----

  /** A run: each state follows from the one before by an enabled step of either side. */
  ghost predicate IsRun(c: Config, run: seq<State>, actions: seq<Action>) {
    && |run| == |actions| + 1 && Init(c, run[0])
    && forall i :: 0 <= i < |actions| ==> Enabled(c, run[i], actions[i]) && run[i + 1] == Step(c, run[i], actions[i])
  }

  lemma {:induction false} RunKeepsInv(c: Config, run: seq<State>, actions: seq<Action>, i: nat)
    requires Usable(c) && IsRun(c, run, actions) && i < |run|
    ensures Inv(c, run[i])
  {
    if i > 0 {
      RunKeepsInv(c, run, actions, i - 1);
      StepKeepsInv(c, run[i - 1], actions[i - 1]);
    }
  }

  /** The blocks that the consumer has got or flushed are, in order, a prefix of the blocks
      that were put: none lost, reordered, duplicated or torn. Never more than count - 1
      blocks are held. */
  lemma DeliveredIsPrefix(c: Config, run: seq<State>, actions: seq<Action>, i: nat)
    requires Usable(c) && IsRun(c, run, actions) && i < |run|
    ensures var s := run[i];
            && |s.taken| <= |s.accepted| <= |s.taken| + c.count - 1
            && forall k :: 0 <= k < |s.taken| ==> s.taken[k].block == s.accepted[k]
  {
    RunKeepsInv(c, run, actions, i);
  }

  // ----- what each operation does to the queue -----

  /** The blocks put and not taken yet. */
  ghost function Queue(s: State): seq<Block> {
    if |s.taken| <= |s.accepted| then s.accepted[|s.taken|..] else []
  }

  /** Only the last step of each operation changes the queue: a put appends the block that it was
      given, a get takes the oldest block and hands out just that, and a flush leaves what was
      put after it had read put_pos. */
  lemma QueueStep(c: Config, s: State, a: Action)
    requires Usable(c) && Inv(c, s) && Enabled(c, s, a)
    ensures var t := Step(c, s, a);
            match a
            case PublishPut => Queue(t) == Queue(s) + [s.producer.block] && t.taken == s.taken
            case PublishGet => Queue(s) == [s.consumer.data] + Queue(t) && t.taken == s.taken + [Got(s.consumer.data)]
            case WriteFlush =>
              && Queue(t) == s.accepted[s.consumer.target..] && t.get_pos == s.consumer.pos
              && t.taken[..|s.taken|] == s.taken && forall i :: |s.taken| <= i < |t.taken| ==> t.taken[i].Flushed?
            case _ => Queue(t) == Queue(s) && t.taken == s.taken && t.accepted == s.accepted
  {
    hide Pos, Offset, IsAt, QueueOk, ProducerOk, Unit, Stored, Fetched;
    match a {
      case PublishGet =>
        var G := |s.taken|;
        assert s.accepted[G][..c.size] == s.accepted[G];
        assert s.accepted[G..] == [s.accepted[G]] + s.accepted[G + 1..];
      case _ =>
    }
  }

  /** From its first step to its last, a put keeps the block that it was given. */
  lemma PutKeepsBlock(c: Config, s: State, a: Action)
    requires Enabled(c, s, a)
    ensures a.CheckPut? && Step(c, s, a).producer.PutCopying? ==> Step(c, s, a).producer.block == a.block
    ensures s.producer.PutCopying? && a != PublishPut ==>
              Step(c, s, a).producer.PutCopying? && Step(c, s, a).producer.block == s.producer.block
  {
  }

  ghost predicate ConsumerStep(a: Action) {
    a == CheckGet || a == CopyGet || a == PublishGet || a == ReadFlush || a == WriteFlush
  }

  lemma {:induction false} FlushPending(c: Config, run: seq<State>, actions: seq<Action>, i: nat, j: nat)
    requires IsRun(c, run, actions) && i < j < |run| && actions[i] == ReadFlush
    requires forall k :: i < k < j ==> !ConsumerStep(actions[k])
    ensures run[j].consumer == Flushing(run[i].put_pos, |run[i].accepted|)
    ensures run[j].get_pos == run[i].get_pos && run[i].accepted <= run[j].accepted
  {
    if j > i + 1 {
      FlushPending(c, run, actions, i, j - 1);
      assert run[j - 1 + 1] == Step(c, run[j - 1], actions[j - 1]);
    } else {
      assert run[i + 1] == Step(c, run[i], actions[i]);
    }
  }

  /** In every run, a flush empties the queue of everything that was in it when the flush began. What
      has been put since stays, in order. */
  lemma FlushExact(c: Config, run: seq<State>, actions: seq<Action>, i: nat, j: nat)
    requires Usable(c) && IsRun(c, run, actions) && i < j < |actions|
    requires actions[i] == ReadFlush && actions[j] == WriteFlush
    requires forall k :: i < k < j ==> !ConsumerStep(actions[k])
    ensures run[j + 1].get_pos == run[i].put_pos
    ensures run[i].accepted <= run[j].accepted && run[j].accepted == run[i].accepted + Queue(run[j + 1])
    ensures Queue(run[j]) == Queue(run[i]) + Queue(run[j + 1])
  {
    hide Pos, Offset, IsAt, QueueOk, ProducerOk, HistoryOk;
    FlushPending(c, run, actions, i, j);
    RunKeepsInv(c, run, actions, i);
    RunKeepsInv(c, run, actions, j);
    QueueStep(c, run[j], WriteFlush);
    TakenKept(c, run, actions, i, j);
    var n := |run[i].accepted|;
    assert run[j].accepted == run[j].accepted[..n] + run[j].accepted[n..];
  }

  lemma {:induction false} TakenKept(c: Config, run: seq<State>, actions: seq<Action>, i: nat, j: nat)
    requires IsRun(c, run, actions) && i < j < |run| && actions[i] == ReadFlush
    requires forall k :: i < k < j ==> !ConsumerStep(actions[k])
    ensures run[j].taken == run[i].taken
  {
    if j > i + 1 {
      TakenKept(c, run, actions, i, j - 1);
      assert run[j - 1 + 1] == Step(c, run[j - 1], actions[j - 1]);
    } else {
      assert run[i + 1] == Step(c, run[i], actions[i]);
    }
  }

  /** While one side copies in and the other copies out, they are in different slots, and
      the bytes of the two slots do not overlap. */
  lemma NeverSameSlot(c: Config, run: seq<State>, actions: seq<Action>, i: nat)
    requires Usable(c) && IsRun(c, run, actions) && i < |run|
    requires run[i].producer.PutCopying? && run[i].consumer.GetCopying?
    ensures run[i].put_pos != run[i].get_pos
    ensures var w, r := Offset(run[i].put_pos, c.size), Offset(run[i].get_pos, c.size);
            w + c.size <= r || r + c.size <= w
  {
    RunKeepsInv(c, run, actions, i);
    PosApart(|run[i].taken|, |run[i].accepted|, c);
  }
}
