/** The ring FIFO (iw_oal_fifo.c), used by one caller at a time: a bounded queue of blocks. */
module Fifo {
  import opened Basics

  /** Copies word by word, then byte by byte. */
  method InlineMemcpy(d: array<Byte>, dpos: nat, s: array<Byte>, spos: nat, len: nat)
    requires d != s && dpos + len <= d.Length && spos + len <= s.Length
    modifies d
    ensures d[dpos..dpos + len] == s[spos..spos + len]
    ensures forall k :: 0 <= k < d.Length && !(dpos <= k < dpos + len) ==> d[k] == old(d[k])
  {
    var dx, sx, rem := dpos, spos, len;
    while rem >= 4
      invariant dx - dpos == sx - spos == len - rem
      invariant forall k :: dpos <= k < dx ==> d[k] == s[k - dpos + spos]
      invariant forall k :: 0 <= k < d.Length && !(dpos <= k < dpos + len) ==> d[k] == old(d[k])
    {
      d[dx], d[dx + 1], d[dx + 2], d[dx + 3] := s[sx], s[sx + 1], s[sx + 2], s[sx + 3];
      dx, sx, rem := dx + 4, sx + 4, rem - 4;
    }
    while rem > 0
      invariant dx - dpos == sx - spos == len - rem
      invariant forall k :: dpos <= k < dx ==> d[k] == s[k - dpos + spos]
      invariant forall k :: 0 <= k < d.Length && !(dpos <= k < dpos + len) ==> d[k] == old(d[k])
    {
      d[dx] := s[sx];
      dx, sx, rem := dx + 1, sx + 1, rem - 1;
    }
    ghost var copied, source := d[dpos..dpos + len], s[spos..spos + len];
    forall k | 0 <= k < len ensures copied[k] == source[k] {
      assert d[dpos + k] == s[dpos + k - dpos + spos];
    }
  }

  /** Position of the k-th block after `pos` in a ring of `count` blocks. */
  function Ahead(pos: nat, k: nat, count: nat): nat {
    if pos + k < count then pos + k else pos + k - count
  }

  /** IW_PUT_FIFO_NEXT and IW_GET_FIFO_NEXT. */
  method Next(pos: nat, count: nat) returns (next: nat)
    requires pos < count < U32
    ensures next == Ahead(pos, 1, count)
  {
    assert (pos + 1) % U32 == pos + 1;
    next := (pos + 1) % U32 % count;
    ModStep(pos + 1, count);
  }

  lemma ModStep(x: nat, count: nat)
    requires 0 < x <= count
    ensures x % count == if x < count then x else 0
  {
    if x == count {
      assert count == 1 * count + 0;
    }
  }

  /** Converting to int and back to uint32_t loses nothing. */
  lemma IntRoundTrip(u: Word)
    ensures Unsigned32(Wrap(u)) == u
  {
  }

  /** Where the i-th slot starts. */
  ghost function Offset(i: nat, size: nat): nat {
    if i == 0 then 0 else Offset(i - 1, size) + size
  }

  lemma {:induction false} OffsetIsProduct(i: nat, size: nat)
    ensures Offset(i, size) == i * size
  {
    if i > 0 {
      OffsetIsProduct(i - 1, size);
      assert (i - 1) * size + size == i * size;
    }
  }

  /** An earlier slot ends before a later one starts. */
  lemma {:induction false} SlotsApart(i: nat, j: nat, size: nat)
    requires i < j
    ensures Offset(i, size) + size <= Offset(j, size)
  {
    if i + 1 < j {
      SlotsApart(i, j - 1, size);
    }
  }

  lemma SlotsWithin(count: nat, size: nat)
    ensures forall i :: 0 <= i < count ==> Offset(i, size) + size <= Offset(count, size)
  {
    forall i | 0 <= i < count ensures Offset(i, size) + size <= Offset(count, size) {
      SlotsApart(i, count, size);
    }
  }

  /** What the queue holds: the run of slots starting at `pos`. */
  ghost predicate Run(slots: seq<seq<Byte>>, pos: nat, contents: seq<seq<Byte>>) {
    && pos < |slots| && |contents| < |slots|
    && forall k :: 0 <= k < |contents| ==> contents[k] == slots[Ahead(pos, k, |slots|)]
  }

  lemma RunPop(slots: seq<seq<Byte>>, pos: nat, contents: seq<seq<Byte>>)
    requires Run(slots, pos, contents) && contents != []
    ensures contents[0] == slots[pos]
    ensures Run(slots, Ahead(pos, 1, |slots|), contents[1..])
  {
    var rest, next := contents[1..], Ahead(pos, 1, |slots|);
    forall k | 0 <= k < |rest| ensures rest[k] == slots[Ahead(next, k, |slots|)] {
      assert rest[k] == contents[k + 1];
    }
    assert contents[0] == slots[Ahead(pos, 0, |slots|)];
  }

  lemma RunPush(slots: seq<seq<Byte>>, pos: nat, contents: seq<seq<Byte>>, block: seq<Byte>)
    requires Run(slots, pos, contents) && |contents| + 1 < |slots|
    ensures Run(slots[Ahead(pos, |contents|, |slots|) := block], pos, contents + [block])
  {
  }

  /** The buffer is cut into slots of `size` bytes, and `slots` is what they hold. */
  ghost predicate Cut(buffer: seq<Byte>, size: nat, slots: seq<seq<Byte>>) {
    && Offset(|slots|, size) <= |buffer|
    && forall i :: 0 <= i < |slots| ==> IsAt(buffer, Offset(i, size), size, slots[i])
  }

  ghost predicate IsAt(buffer: seq<Byte>, at: nat, size: nat, block: seq<Byte>) {
    at + size <= |buffer| && buffer[at..at + size] == block
  }

  ghost function CutInto(buffer: seq<Byte>, size: nat, count: nat): (slots: seq<seq<Byte>>)
    requires Offset(count, size) <= |buffer|
    ensures |slots| == count && Cut(buffer, size, slots)
  {
    SlotsWithin(count, size);
    seq(count, i requires 0 <= i < count => buffer[Offset(i, size)..Offset(i, size) + size])
  }

  /** Overwriting one slot leaves the others alone. */
  lemma CutUpdate(was: seq<Byte>, now: seq<Byte>, size: nat, slots: seq<seq<Byte>>, i: nat, block: seq<Byte>)
    requires Cut(was, size, slots) && i < |slots| && |now| == |was| && IsAt(now, Offset(i, size), size, block)
    requires forall k :: 0 <= k < |was| && !(Offset(i, size) <= k < Offset(i, size) + size) ==> now[k] == was[k]
    ensures Cut(now, size, slots[i := block])
  {
    forall j | 0 <= j < |slots| && j != i ensures IsAt(now, Offset(j, size), size, slots[j]) {
      if j < i { SlotsApart(j, i, size); } else { SlotsApart(i, j, size); }
      assert IsAt(was, Offset(j, size), size, slots[j]);
      SameAt(was, now, Offset(j, size), size, slots[j]);
    }
  }

  lemma SameAt(was: seq<Byte>, now: seq<Byte>, at: nat, size: nat, block: seq<Byte>)
    requires IsAt(was, at, size, block) && |now| == |was|
    requires forall k :: at <= k < at + size ==> now[k] == was[k]
    ensures IsAt(now, at, size, block)
  {
    assert now[at..at + size] == was[at..at + size];
  }

  class Fifo {
    var put_pos: nat
    var get_pos: nat
    var block_size: nat
    var block_count: nat
    var block_pdata: array<Byte>
    ghost var slots: seq<seq<Byte>>
    ghost var contents: seq<seq<Byte>>

    ghost predicate SlotsOk()
      reads this`block_size, this`block_count, this`block_pdata, this`slots, block_pdata
    {
      |slots| == block_count && Cut(block_pdata[..], block_size, slots)
    }

    /** The queue is the run of slots from get_pos up to put_pos, around the ring. */
    ghost predicate RingOk()
      reads this`put_pos, this`get_pos, this`block_count, this`slots, this`contents
    {
      && put_pos < block_count && block_count < U32 && |slots| == block_count
      && Run(slots, get_pos, contents) && put_pos == Ahead(get_pos, |contents|, block_count)
    }

    ghost predicate Valid()
      reads this, block_pdata
    {
      SlotsOk() && RingOk()
    }

    constructor Init(pdata: array<Byte>, size: nat, count: nat)
      requires 1 <= count < U32 && pdata.Length >= count * size
      ensures Valid() && contents == []
      ensures block_pdata == pdata && block_size == size && block_count == count
    {
      put_pos, get_pos := 0, 0;
      block_size, block_count, block_pdata := size, count, pdata;
      OffsetIsProduct(count, size);
      slots := CutInto(pdata[..], size, count);
      contents := [];
    }

    /** Overwrites slot i and no other. */
    method CopyIn(i: nat, pdata: array<Byte>)
      requires SlotsOk() && i < block_count && pdata != block_pdata && pdata.Length >= block_size
      modifies block_pdata, this`slots
      ensures SlotsOk() && slots == old(slots)[i := pdata[..block_size]]
    {
      OffsetIsProduct(i, block_size);
      assert IsAt(block_pdata[..], Offset(i, block_size), block_size, slots[i]);
      ghost var was := block_pdata[..];
      InlineMemcpy(block_pdata, i * block_size, pdata, 0, block_size);
      CutUpdate(was, block_pdata[..], block_size, slots, i, pdata[..block_size]);
      slots := slots[i := pdata[..block_size]];
    }

    method CopyOut(i: nat, pdata: array<Byte>)
      requires SlotsOk() && i < block_count && pdata != block_pdata && pdata.Length >= block_size
      modifies pdata
      ensures SlotsOk() && pdata[..block_size] == slots[i]
    {
      OffsetIsProduct(i, block_size);
      assert IsAt(block_pdata[..], Offset(i, block_size), block_size, slots[i]);
      InlineMemcpy(pdata, 0, block_pdata, i * block_size, block_size);
    }

    /** Appends a block, unless block_count - 1 blocks are held already. */
    method Put(pdata: array<Byte>) returns (ok: bool)
      requires Valid() && pdata != block_pdata && pdata.Length >= block_size
      modifies this`put_pos, this`slots, this`contents, block_pdata
      ensures Valid()
      ensures ok <==> |old(contents)| < block_count - 1
      ensures contents == if ok then old(contents) + [pdata[..block_size]] else old(contents)
      ensures !ok ==> unchanged(block_pdata) && put_pos == old(put_pos)
    {
      var next := Next(put_pos, block_count);
      var put_next_pos := Wrap(next);
      IntRoundTrip(next);
      if get_pos != Unsigned32(put_next_pos) {
        RunPush(slots, get_pos, contents, pdata[..block_size]);
        CopyIn(put_pos, pdata);
        contents := contents + [pdata[..block_size]];
        put_pos := Unsigned32(put_next_pos);
        return true;
      }
      return false;
    }

    /** Takes out the oldest block, if there is one. */
    method Get(pdata: array<Byte>) returns (ok: bool)
      requires Valid() && pdata != block_pdata && pdata.Length >= block_size
      modifies this`get_pos, this`contents, pdata
      ensures Valid()
      ensures ok <==> old(contents) != []
      ensures ok ==> pdata[..block_size] == old(contents)[0] && contents == old(contents)[1..]
      ensures !ok ==> unchanged(pdata) && contents == old(contents)
    {
      if put_pos != get_pos {
        RunPop(slots, get_pos, contents);
        CopyOut(get_pos, pdata);
        var next := Next(get_pos, block_count);
        contents := contents[1..];
        get_pos := next;
        return true;
      }
      return false;
    }

    /** The number of blocks held, although put_pos + block_count may wrap in 32 bits. */
    method Count() returns (n: nat)
      requires Valid()
      ensures n == |contents|
    {
      if put_pos > get_pos {
        return put_pos - get_pos;
      }
      if get_pos != put_pos {
        return ((put_pos + block_count) % U32 - get_pos) % U32;
      }
      return 0;
    }

    method Flush()
      requires Valid()
      modifies this`get_pos, this`contents
      ensures Valid() && contents == []
    {
      get_pos := put_pos;
      contents := [];
    }
  }
}
