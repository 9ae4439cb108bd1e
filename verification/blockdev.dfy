// The cached block device of kernel/src/devices/blockcache.c and the file over a block device of
// kernel/src/files/special/blkfile.c.
module BlockDevices {
  import opened Basics
  import opened Multiples
  import opened RobinHoodSpec
  import opened BlockTable

  lemma SliceOfSlice<T>(s: seq<T>, from: nat, n: nat, i: nat, m: nat)
    requires from + n <= |s| && i + m <= n
    ensures s[from..from + n][i..i + m] == s[from + i..from + i + m]
  {
    var t := s[from..from + n];
    var a, b := t[i..i + m], s[from + i..from + i + m];
    forall j | 0 <= j < m ensures a[j] == b[j] {
    }
  }

  // ---- The device below the cache

  // The contents, and for the operations to come whether they succeed. A failed operation changes nothing.
  class BlockDevice {
    const blockSize: nat
    var data: seq<byte>
    var outcomes: seq<bool>

    constructor (blockSize: nat, data: seq<byte>, outcomes: seq<bool>)
      ensures this.blockSize == blockSize && this.data == data
    {
      this.blockSize, this.data, this.outcomes := blockSize, data, outcomes;
    }

    method NextOutcome() returns (ok: bool)
      modifies this`outcomes
      ensures false !in old(outcomes) ==> ok && false !in outcomes
    {
      ok := outcomes == [] || outcomes[0];
      outcomes := if outcomes == [] then [] else outcomes[1..];
    }

    method Read(offset: nat, size: nat) returns (ok: bool, bytes: seq<byte>)
      requires offset + size <= |data|
      modifies this`outcomes
      ensures |bytes| == size && (ok ==> bytes == data[offset..offset + size])
      ensures false !in old(outcomes) ==> ok && false !in outcomes
    {
      ok := NextOutcome();
      bytes := if ok then data[offset..offset + size] else seq(size, _ => 0);
    }

    method Write(offset: nat, bytes: seq<byte>) returns (ok: bool)
      requires offset + |bytes| <= |data|
      modifies this`outcomes, this`data
      ensures data == if ok then Splice(old(data), offset, bytes) else old(data)
      ensures false !in old(outcomes) ==> ok && false !in outcomes
    {
      ok := NextOutcome();
      if ok {
        data := Splice(data, offset, bytes);
      }
    }
  }

  // ---- The cache

  ghost predicate BlockOk(m: map<nat, Block>, data: seq<byte>, size: nat, k: nat)
    requires size > 0
  {
    k in m ==> Whole(k, size) && k + size <= |data| && m[k].bytes == data[k..k + size]
  }

  // Every cached block equals the device block, except for offsets in [from, to).
  ghost predicate Coherent(m: map<nat, Block>, data: seq<byte>, size: nat, from: nat, to: nat)
    requires size > 0
  {
    forall k {:trigger BlockOk(m, data, size, k)} :: k in m ==>
      if from <= k < to then Whole(k, size) && k + size <= |data| else BlockOk(m, data, size, k)
  }

  // What a transfer of the bytes from `from` up to `to` does to block `k` of the cache: afterwards every block of the
  // range is cached, a read makes it more important, and nothing else changes. A read that fails may have come to some
  // of the blocks only.
  ghost predicate CachedAfter(m: map<nat, Block>, n: map<nat, Block>, size: nat, from: nat, to: nat, write: bool,
                              ok: bool, k: nat)
    requires size > 0
  {
    if from <= k < to && Whole(k, size) then
      || (k in n && n[k].priority == if k !in m then DEFAULT_PRIORITY
                                     else if write || m[k].priority == 0 then m[k].priority
                                     else m[k].priority - 1)
      || (!ok && Kept(m, n, k))
    else
      Kept(m, n, k)
  }

  ghost predicate Kept(m: map<nat, Block>, n: map<nat, Block>, k: nat) {
    (k in n <==> k in m) && (k in m ==> n[k] == m[k])
  }

  ghost predicate Transferred(m: map<nat, Block>, n: map<nat, Block>, size: nat, from: nat, to: nat, write: bool,
                              ok: bool)
    requires size > 0
  {
    forall k: nat {:trigger CachedAfter(m, n, size, from, to, write, ok, k)} ::
      CachedAfter(m, n, size, from, to, write, ok, k)
  }

  // The transfers that do this, as a set: what the methods say about the cache while they are at work on bytes.
  datatype Step = Step(m: map<nat, Block>, n: map<nat, Block>, from: nat, to: nat, write: bool, ok: bool)

  ghost function Transfers(size: nat): iset<Step>
    requires size > 0
  {
    iset s: Step | Transferred(s.m, s.n, size, s.from, s.to, s.write, s.ok)
  }

  ghost predicate StepDef(e: iset<Step>, size: nat, s: Step)
    requires size > 0
  {
    s in e <==> Transferred(s.m, s.n, size, s.from, s.to, s.write, s.ok)
  }

  ghost predicate StepsOk(e: iset<Step>, size: nat)
    requires size > 0
  {
    forall s {:trigger StepDef(e, size, s)} :: StepDef(e, size, s)
  }

  lemma NewSteps(size: nat) returns (e: iset<Step>)
    requires size > 0
    ensures StepsOk(e, size) && e == Transfers(size)
  {
    e := Transfers(size);
    forall s ensures StepDef(e, size, s) {
    }
  }

  lemma StepMeans(e: iset<Step>, size: nat, m: map<nat, Block>, n: map<nat, Block>, from: nat, to: nat, write: bool,
                    ok: bool)
    requires size > 0 && StepsOk(e, size)
    ensures Step(m, n, from, to, write, ok) in e <==> Transferred(m, n, size, from, to, write, ok)
  {
    assert StepDef(e, size, Step(m, n, from, to, write, ok));
  }

  lemma NothingTransferred(e: iset<Step>, m: map<nat, Block>, size: nat, from: nat, to: nat, write: bool, ok: bool)
    requires size > 0 && StepsOk(e, size) && (!ok || to <= from)
    ensures Step(m, m, from, to, write, ok) in e
  {
    StepMeans(e, size, m, m, from, to, write, ok);
  }

  // A transfer that fails may as well be one of a longer range.
  lemma Sooner(e: iset<Step>, m: map<nat, Block>, n: map<nat, Block>, size: nat, from: nat, to: nat, end: nat,
               write: bool)
    requires size > 0 && StepsOk(e, size) && Step(m, n, from, to, write, false) in e && to <= end
    ensures Step(m, n, from, end, write, false) in e
  {
    StepMeans(e, size, m, n, from, to, write, false);
    forall k: nat ensures CachedAfter(m, n, size, from, end, write, false, k) {
      assert CachedAfter(m, n, size, from, to, write, false, k);
    }
    StepMeans(e, size, m, n, from, end, write, false);
  }

  // One block.
  lemma OneTransferred(e: iset<Step>, m: map<nat, Block>, n: map<nat, Block>, size: nat, from: nat, b: Block,
                       write: bool)
    requires size > 0 && StepsOk(e, size) && Whole(from, size) && n == m[from := b]
    requires b.priority == if from !in m then DEFAULT_PRIORITY
                           else if write || m[from].priority == 0 then m[from].priority
                           else m[from].priority - 1
    ensures Step(m, n, from, from + size, write, true) in e
  {
    var to := from + size;
    forall k: nat ensures CachedAfter(m, n, size, from, to, write, true, k) {
      if from < k < from + size && Whole(k, size) {
        Apart(from, k, size);
      }
    }
    StepMeans(e, size, m, n, from, to, write, true);
  }

  // Two transfers of neighbouring ranges, the first one before the second one, or the other way round.
  lemma InTurn(e: iset<Step>, m: map<nat, Block>, n: map<nat, Block>, o: map<nat, Block>, size: nat, a: nat, b: nat,
               c: nat, write: bool, ok: bool)
    requires size > 0 && StepsOk(e, size) && a <= b <= c
    requires Step(m, n, a, b, write, true) in e && Step(n, o, b, c, write, ok) in e
    ensures Step(m, o, a, c, write, ok) in e
  {
    StepMeans(e, size, m, n, a, b, write, true);
    StepMeans(e, size, n, o, b, c, write, ok);
    forall k: nat ensures CachedAfter(m, o, size, a, c, write, ok, k) {
      assert CachedAfter(m, n, size, a, b, write, true, k) && CachedAfter(n, o, size, b, c, write, ok, k);
    }
    StepMeans(e, size, m, o, a, c, write, ok);
  }

  lemma InReverse(e: iset<Step>, m: map<nat, Block>, n: map<nat, Block>, o: map<nat, Block>, size: nat, a: nat, b: nat,
                  c: nat, write: bool, ok: bool)
    requires size > 0 && StepsOk(e, size) && a <= b <= c
    requires Step(m, n, b, c, write, true) in e && Step(n, o, a, b, write, ok) in e
    ensures Step(m, o, a, c, write, ok) in e
  {
    StepMeans(e, size, m, n, b, c, write, true);
    StepMeans(e, size, n, o, a, b, write, ok);
    forall k: nat ensures CachedAfter(m, o, size, a, c, write, ok, k) {
      assert CachedAfter(m, n, size, b, c, write, true, k) && CachedAfter(n, o, size, a, b, write, ok, k);
    }
    StepMeans(e, size, m, o, a, c, write, ok);
  }

  // One more block, or another priority for a block.
  lemma CoherentWith(m: map<nat, Block>, n: map<nat, Block>, data: seq<byte>, size: nat, offset: nat, b: Block)
    requires size > 0 && Coherent(m, data, size, 0, 0) && n == m[offset := b]
    requires Whole(offset, size) && offset + size <= |data| && b.bytes == data[offset..offset + size]
    ensures Coherent(n, data, size, 0, 0)
  {
    forall k | k in n ensures BlockOk(n, data, size, k) {
      assert BlockOk(m, data, size, k);
    }
  }

  lemma BlockAdded(e: iset<Step>, m: map<nat, Block>, n: map<nat, Block>, data: seq<byte>, size: nat, offset: nat,
                   bytes: seq<byte>)
    requires size > 0 && StepsOk(e, size) && Coherent(m, data, size, 0, 0) && offset !in m
    requires n == m[offset := Block(offset, DEFAULT_PRIORITY, bytes)]
    requires Whole(offset, size) && offset + size <= |data| && bytes == data[offset..offset + size]
    ensures Coherent(n, data, size, 0, 0) && Step(m, n, offset, offset + size, false, true) in e
  {
    var b := Block(offset, DEFAULT_PRIORITY, bytes);
    CoherentWith(m, n, data, size, offset, b);
    OneTransferred(e, m, n, size, offset, b, false);
  }

  class CachedBlockDevice {
    const uncached: BlockDevice
    const table: CachedBlockTable

    ghost predicate Valid()
      reads this, uncached, table
    {
      table.Valid() && uncached.blockSize > 0 && Whole(|uncached.data|, uncached.blockSize) &&
      Coherent(table.Map(), uncached.data, uncached.blockSize, 0, 0)
    }

    constructor (uncached: BlockDevice, hash: nat -> nat)
      requires uncached.blockSize > 0 && Whole(|uncached.data|, uncached.blockSize)
      ensures Valid() && this.uncached == uncached && fresh(table)
    {
      this.uncached := uncached;
      table := new CachedBlockTable(hash);
    }

    // A hit makes the block more important.
    method Touch(i: nat, ghost k: nat, ghost e: iset<Step>)
      requires uncached.blockSize > 0 && StepsOk(e, uncached.blockSize)
      requires Valid() && i < |table.slots| && k in table.Map() && table.slots[i] == Some(table.Map()[k])
      modifies table
      ensures Valid()
      ensures Step(old(table.Map()), table.Map(), k, k + uncached.blockSize, false, true) in e
    {
      var b := table.slots[i].value;
      ghost var m := table.Map();
      KeysOk(table.Value());
      assert BlockOk(m, uncached.data, uncached.blockSize, k) && b.offset == k;
      if b.priority > 0 {
        table.Change(i, b.(priority := b.priority - 1));
        CoherentWith(m, table.Map(), uncached.data, uncached.blockSize, k, b.(priority := b.priority - 1));
      }
      OneTransferred(e, m, table.Map(), uncached.blockSize, k, table.Map()[k], false);
    }

    // One round of the loop of readUncached: the block has just been read.
    method Remember(offset: nat, bytes: seq<byte>, ghost e: iset<Step>)
      requires uncached.blockSize > 0 && StepsOk(e, uncached.blockSize)
      requires Valid() && Whole(offset, uncached.blockSize) && offset + uncached.blockSize <= |uncached.data|
      requires bytes == uncached.data[offset..offset + uncached.blockSize]
      modifies table
      ensures Valid()
      ensures Step(old(table.Map()), table.Map(), offset, offset + uncached.blockSize, false, true) in e
    {
      var cached := table.Get(offset);
      if cached.None? {
        RememberNew(offset, bytes, e);
      } else {
        Touch(cached.value, offset, e);
      }
    }

    method RememberNew(offset: nat, bytes: seq<byte>, ghost e: iset<Step>)
      requires uncached.blockSize > 0 && StepsOk(e, uncached.blockSize)
      requires Valid() && Whole(offset, uncached.blockSize) && offset + uncached.blockSize <= |uncached.data|
      requires bytes == uncached.data[offset..offset + uncached.blockSize] && offset !in table.Map()
      modifies table
      ensures Valid()
      ensures Step(old(table.Map()), table.Map(), offset, offset + uncached.blockSize, false, true) in e
    {
      ghost var m := table.Map();
      ghost var data := uncached.data;
      table.Insert(offset, bytes);
      assert uncached.data == data;
      BlockAdded(e, m, table.Map(), data, uncached.blockSize, offset, bytes);
    }

    // readUncached: `size` bytes at once into `out`, and every block of them into the table.
    method ReadUncached(out: seq<byte>, pos: nat, offset: nat, size: nat, ghost e: iset<Step>)
      returns (ok: bool, out': seq<byte>)
      requires uncached.blockSize > 0 && StepsOk(e, uncached.blockSize)
      requires Valid() && pos + size <= |out| && offset + size <= |uncached.data|
      requires Whole(offset, uncached.blockSize) && Whole(size, uncached.blockSize)
      modifies table, uncached`outcomes
      ensures Valid() && |out'| == |out|
      ensures ok ==> out' == Splice(out, pos, uncached.data[offset..offset + size])
      ensures false !in old(uncached.outcomes) ==> ok && false !in uncached.outcomes
      ensures Step(old(table.Map()), table.Map(), offset, offset + size, false, ok) in e
    {
      var bytes;
      ok, bytes := uncached.Read(offset, size);
      if !ok {
        NothingTransferred(e, table.Map(), uncached.blockSize, offset, offset + size, false, false);
        return false, out;
      }
      out' := Splice(out, pos, bytes);
      RememberAll(bytes, offset, size, e);
    }

    // The loop of readUncached.
    method RememberAll(bytes: seq<byte>, offset: nat, size: nat, ghost e: iset<Step>)
      requires uncached.blockSize > 0 && StepsOk(e, uncached.blockSize)
      requires Valid() && offset + size <= |uncached.data| && bytes == uncached.data[offset..offset + size]
      requires Whole(offset, uncached.blockSize) && Whole(size, uncached.blockSize)
      modifies table
      ensures Valid()
      ensures Step(old(table.Map()), table.Map(), offset, offset + size, false, true) in e
    {
      var done := 0;
      NothingTransferred(e, table.Map(), uncached.blockSize, offset, offset, false, true);
      while done < size
        invariant 0 <= done <= size && Whole(done, uncached.blockSize) && Valid()
        invariant Step(old(table.Map()), table.Map(), offset, offset + done, false, true) in e
        modifies table
      {
        done := RememberNext(bytes, offset, size, done, old(table.Map()), e);
      }
    }

    method RememberNext(bytes: seq<byte>, offset: nat, size: nat, done: nat, ghost was: map<nat, Block>,
                        ghost e: iset<Step>)
      returns (done': nat)
      requires uncached.blockSize > 0 && StepsOk(e, uncached.blockSize)
      requires Valid() && offset + size <= |uncached.data| && bytes == uncached.data[offset..offset + size]
      requires Whole(offset, uncached.blockSize) && Whole(size, uncached.blockSize)
      requires done < size && Whole(done, uncached.blockSize)
      requires Step(was, table.Map(), offset, offset + done, false, true) in e
      modifies table
      ensures Valid() && done' == done + uncached.blockSize <= size && Whole(done', uncached.blockSize)
      ensures Step(was, table.Map(), offset, offset + done', false, true) in e
    {
      var bs := uncached.blockSize;
      ghost var m := table.Map();
      Apart(done, size, bs);
      RestOfSum(offset, done, bs);
      SliceOfSlice(uncached.data, offset, size, done, bs);
      Remember(offset + done, bytes[done..done + bs], e);
      RestOfSum(done, bs, bs);
      done' := done + bs;
      InTurn(e, was, m, table.Map(), bs, offset, offset + done, offset + done', false, true);
    }

    // readFunction: hits are copied from the table; a run of misses is read at the next hit or at the end.
    method Read(offset: nat, size: nat) returns (ok: bool, out: seq<byte>)
      requires Valid() && offset + size <= |uncached.data|
      requires Whole(offset, uncached.blockSize) && Whole(size, uncached.blockSize)
      modifies table, uncached`outcomes
      ensures Valid() && |out| == size
      ensures ok ==> out == uncached.data[offset..offset + size]
      ensures false !in old(uncached.outcomes) ==> ok && false !in uncached.outcomes
      ensures Step(old(table.Map()), table.Map(), offset, offset + size, false, ok) in Transfers(uncached.blockSize)
    {
      ghost var e := NewSteps(uncached.blockSize);
      ok, out := ReadBlocks(offset, size, e);
    }

    // Its loop.
    method ReadBlocks(offset: nat, size: nat, ghost e: iset<Step>) returns (ok: bool, out: seq<byte>)
      requires uncached.blockSize > 0 && StepsOk(e, uncached.blockSize)
      requires Valid() && offset + size <= |uncached.data|
      requires Whole(offset, uncached.blockSize) && Whole(size, uncached.blockSize)
      modifies table, uncached`outcomes
      ensures Valid() && |out| == size
      ensures ok ==> out == uncached.data[offset..offset + size]
      ensures false !in old(uncached.outcomes) ==> ok && false !in uncached.outcomes
      ensures Step(old(table.Map()), table.Map(), offset, offset + size, false, ok) in e
    {
      var pos, misses;
      ok, out, pos, misses := ReadRounds(offset, size, e);
      if ok {
        ok, out := ReadRest(out, pos, misses, offset, old(table.Map()), e);
      }
    }

    // Up to the misses at the end.
    method ReadRounds(offset: nat, size: nat, ghost e: iset<Step>)
      returns (ok: bool, out: seq<byte>, pos: nat, misses: nat)
      requires uncached.blockSize > 0 && StepsOk(e, uncached.blockSize)
      requires Valid() && offset + size <= |uncached.data|
      requires Whole(offset, uncached.blockSize) && Whole(size, uncached.blockSize)
      modifies table, uncached`outcomes
      ensures Valid() && |out| == size
      ensures ok ==> Halfway(out, pos, misses, offset) && pos + misses == size
      ensures false !in old(uncached.outcomes) ==> ok && false !in uncached.outcomes
      ensures ok ==> Step(old(table.Map()), table.Map(), offset, offset + pos, false, true) in e
      ensures !ok ==> Step(old(table.Map()), table.Map(), offset, offset + size, false, false) in e
    {
      NothingTransferred(e, table.Map(), uncached.blockSize, offset, offset, false, true);
      out := seq(size, _ => 0);
      // buff and offset of the original have both advanced by `pos`
      pos, misses, ok := 0, 0, true;
      ReadBegins(out, offset);
      while pos + misses < size
        invariant Valid() && |out| == size && Halfway(out, pos, misses, offset) && ok
        invariant false !in old(uncached.outcomes) ==> false !in uncached.outcomes
        invariant Step(old(table.Map()), table.Map(), offset, offset + pos, false, true) in e
        decreases size - (pos + misses)
      {
        ok, out, pos, misses := ReadRound(out, pos, misses, offset, old(table.Map()), e);
        if !ok {
          return;
        }
      }
    }

    lemma ReadBegins(out: seq<byte>, offset: nat)
      requires uncached.blockSize > 0 && offset + |out| <= |uncached.data|
      requires Whole(offset, uncached.blockSize) && Whole(|out|, uncached.blockSize)
      ensures Halfway(out, 0, 0, offset)
    {
      assert out[..0] == uncached.data[offset..offset + 0];
    }

    // The first `pos` bytes are there, and the next `misses` bytes are not cached.
    ghost predicate Halfway(out: seq<byte>, pos: nat, misses: nat, offset: nat)
      requires uncached.blockSize > 0
      reads uncached
    {
      var bs := uncached.blockSize;
      && pos + misses <= |out| && offset + |out| <= |uncached.data|
      && Whole(offset, bs) && Whole(|out|, bs) && Whole(pos, bs) && Whole(misses, bs)
      && out[..pos] == uncached.data[offset..offset + pos]
    }

    method ReadRound(out: seq<byte>, pos: nat, misses: nat, offset: nat, ghost was: map<nat, Block>,
                     ghost e: iset<Step>)
      returns (ok: bool, out': seq<byte>, pos': nat, misses': nat)
      requires uncached.blockSize > 0 && StepsOk(e, uncached.blockSize)
      requires Valid() && Halfway(out, pos, misses, offset) && pos + misses < |out|
      requires Step(was, table.Map(), offset, offset + pos, false, true) in e
      modifies table, uncached`outcomes
      ensures Valid() && |out'| == |out|
      ensures ok ==> Halfway(out', pos', misses', offset) && pos' + misses' == pos + misses + uncached.blockSize
      ensures false !in old(uncached.outcomes) ==> ok && false !in uncached.outcomes
      ensures ok ==> Step(was, table.Map(), offset, offset + pos', false, true) in e
      ensures !ok ==> Step(was, table.Map(), offset, offset + |out|, false, false) in e
    {
      var bs := uncached.blockSize;
      RoundFacts(offset, pos, misses, |out|, bs);
      var cached := table.Get(offset + pos + misses);
      if cached.Some? {
        ok, out' := CopyHit(out, pos, misses, offset, cached.value, was, offset + (pos + misses + bs), offset + |out|,
            e);
        pos', misses' := pos + misses + bs, 0;
      } else {
        ok, out', pos', misses' := true, out, pos, misses + bs;
      }
    }

    method ReadRest(out: seq<byte>, pos: nat, misses: nat, offset: nat, ghost was: map<nat, Block>, ghost e: iset<Step>)
      returns (ok: bool, out': seq<byte>)
      requires uncached.blockSize > 0 && StepsOk(e, uncached.blockSize)
      requires Valid() && Halfway(out, pos, misses, offset) && pos + misses == |out|
      requires Step(was, table.Map(), offset, offset + pos, false, true) in e
      modifies table, uncached`outcomes
      ensures Valid() && |out'| == |out|
      ensures ok ==> out' == uncached.data[offset..offset + |out|]
      ensures false !in old(uncached.outcomes) ==> ok && false !in uncached.outcomes
      ensures Step(was, table.Map(), offset, offset + |out|, false, ok) in e
    {
      ghost var m := table.Map();
      RestOfSum(offset, pos, uncached.blockSize);
      ok, out' := FillMisses(out, pos, offset + pos, misses, e);
      InTurn(e, was, m, table.Map(), uncached.blockSize, offset, offset + pos, offset + |out|, false, ok);
      RestJoined(out, out', uncached.data, offset, pos, misses, ok);
    }

    // What was there, what has been read and what was cached, one behind the other.
    lemma Assembled(data: seq<byte>, out: seq<byte>, hit: seq<byte>, out': seq<byte>, offset: nat, pos: nat,
                    misses: nat, bytes: seq<byte>)
      requires var p := pos + misses + |bytes|; p <= |out| && offset + |out| <= |data|
      requires out[..pos] == data[offset..offset + pos] && hit == Splice(out, pos + misses, bytes)
      requires bytes == data[offset + pos + misses..offset + pos + misses + |bytes|]
      requires out' == if misses == 0 then hit else Splice(hit, pos, data[offset + pos..offset + pos + misses])
      ensures var p := pos + misses + |bytes|; out'[..p] == data[offset..offset + p]
    {
      var p := pos + misses + |bytes|;
      forall i | 0 <= i < p ensures out'[i] == data[offset + i] {
        if i < pos {
          assert out'[i] == out[..pos][i] == data[offset..offset + pos][i];
        } else if i >= pos + misses {
          assert out'[i] == bytes[i - pos - misses];
        }
      }
    }

    // The branch of readFunction for a hit after `misses` bytes that are not cached.
    method CopyHit(out: seq<byte>, pos: nat, misses: nat, offset: nat, slot: nat, ghost was: map<nat, Block>,
                   ghost end: nat, ghost to: nat, ghost e: iset<Step>)
      returns (ok: bool, out': seq<byte>)
      requires uncached.blockSize > 0 && StepsOk(e, uncached.blockSize)
      requires Valid() && pos + misses + uncached.blockSize <= |out| && offset + |out| <= |uncached.data|
      requires Whole(offset + pos, uncached.blockSize) && Whole(misses, uncached.blockSize)
      requires out[..pos] == uncached.data[offset..offset + pos]
      requires offset + pos + misses in table.Map()
      requires slot < |table.slots| && table.slots[slot] == Some(table.Map()[offset + pos + misses])
      requires Step(was, table.Map(), offset, offset + pos, false, true) in e
      requires end == offset + pos + misses + uncached.blockSize <= to
      modifies table, uncached`outcomes
      ensures Valid() && |out'| == |out|
      ensures ok ==> var p := pos + misses + uncached.blockSize; out'[..p] == uncached.data[offset..offset + p]
      ensures false !in old(uncached.outcomes) ==> ok && false !in uncached.outcomes
      ensures ok ==> Step(was, table.Map(), offset, end, false, true) in e
      ensures !ok ==> Step(was, table.Map(), offset, to, false, false) in e
    {
      ghost var m, data := table.Map(), uncached.data;
      var bytes := TakeHit(slot, offset + pos + misses, e);
      var hit := Splice(out, pos + misses, bytes);
      ok, out' := FillBefore(hit, pos, offset + pos, misses, was, m, offset, end, to, e);
      assert uncached.data == data;
      if ok {
        Assembled(data, out, hit, out', offset, pos, misses, bytes);
      }
    }

    // The misses between what is there and the hit. Up to `at_` the cache has gone from `was` to `m`, and at the hit,
    // up to `end`, from `m` to what it is.
    method FillBefore(hit: seq<byte>, pos: nat, at_: nat, misses: nat, ghost was: map<nat, Block>,
                      ghost m: map<nat, Block>, ghost from: nat, ghost end: nat, ghost to: nat, ghost e: iset<Step>)
      returns (ok: bool, out': seq<byte>)
      requires uncached.blockSize > 0 && StepsOk(e, uncached.blockSize)
      requires Valid() && pos + misses <= |hit| && at_ + misses <= |uncached.data|
      requires Whole(at_, uncached.blockSize) && Whole(misses, uncached.blockSize)
      requires from <= at_ && at_ + misses <= end <= to && Step(was, m, from, at_, false, true) in e
      requires Step(m, table.Map(), at_ + misses, end, false, true) in e
      modifies table, uncached`outcomes
      ensures Valid() && |out'| == |hit|
      ensures ok ==> out' == if misses == 0 then hit else Splice(hit, pos, uncached.data[at_..at_ + misses])
      ensures false !in old(uncached.outcomes) ==> ok && false !in uncached.outcomes
      ensures ok ==> Step(was, table.Map(), from, end, false, true) in e
      ensures !ok ==> Step(was, table.Map(), from, to, false, false) in e
    {
      ghost var before := table.Map();
      ok, out' := FillMisses(hit, pos, at_, misses, e);
      InReverse(e, m, before, table.Map(), uncached.blockSize, at_, at_ + misses, end, false, ok);
      InTurn(e, was, m, table.Map(), uncached.blockSize, from, at_, end, false, ok);
      if !ok {
        Sooner(e, was, table.Map(), uncached.blockSize, from, end, to, false);
      }
    }

    // The bytes of a cached block, which has been used now.
    method TakeHit(slot: nat, at_: nat, ghost e: iset<Step>) returns (bytes: seq<byte>)
      requires uncached.blockSize > 0 && StepsOk(e, uncached.blockSize)
      requires Valid() && at_ in table.Map() && slot < |table.slots| && table.slots[slot] == Some(table.Map()[at_])
      modifies table
      ensures Valid() && at_ + uncached.blockSize <= |uncached.data|
      ensures bytes == uncached.data[at_..at_ + uncached.blockSize]
      ensures Step(old(table.Map()), table.Map(), at_, at_ + uncached.blockSize, false, true) in e
    {
      bytes := table.slots[slot].value.bytes;
      assert BlockOk(table.Map(), uncached.data, uncached.blockSize, at_);
      Touch(slot, at_, e);
    }

    method FillMisses(out: seq<byte>, pos: nat, offset: nat, misses: nat, ghost e: iset<Step>)
      returns (ok: bool, out': seq<byte>)
      requires uncached.blockSize > 0 && StepsOk(e, uncached.blockSize)
      requires Valid() && pos + misses <= |out| && offset + misses <= |uncached.data|
      requires Whole(offset, uncached.blockSize) && Whole(misses, uncached.blockSize)
      modifies table, uncached`outcomes
      ensures Valid() && |out'| == |out|
      ensures ok ==> out' == if misses == 0 then out else Splice(out, pos, uncached.data[offset..offset + misses])
      ensures false !in old(uncached.outcomes) ==> ok && false !in uncached.outcomes
      ensures Step(old(table.Map()), table.Map(), offset, offset + misses, false, ok) in e
    {
      ok, out' := true, out;
      NothingTransferred(e, table.Map(), uncached.blockSize, offset, offset, false, true);
      if misses != 0 {
        ok, out' := ReadUncached(out, pos, offset, misses, e);
      }
    }

    // writeFunction: first the device, then the table.
    method Write(offset: nat, bytes: seq<byte>) returns (ok: bool)
      requires Valid() && offset + |bytes| <= |uncached.data|
      requires Whole(offset, uncached.blockSize) && Whole(|bytes|, uncached.blockSize)
      modifies table, uncached
      ensures Valid()
      ensures uncached.data == if ok then Splice(old(uncached.data), offset, bytes) else old(uncached.data)
      ensures false !in old(uncached.outcomes) ==> ok && false !in uncached.outcomes
      ensures ok ==>
                Step(old(table.Map()), table.Map(), offset, offset + |bytes|, true, true)
                in Transfers(uncached.blockSize)
      ensures !ok ==> table.Map() == old(table.Map())
    {
      ghost var was := uncached.data;
      ok := uncached.Write(offset, bytes);
      if !ok {
        return;
      }
      WriteLeavesOthers(table.Map(), was, uncached.blockSize, offset, bytes);
      SpliceSlice(was, offset, bytes);
      ghost var e := NewSteps(uncached.blockSize);
      UpdateAll(offset, bytes, e);
    }

    // The loop of writeFunction, after the device has been written.
    method UpdateAll(offset: nat, bytes: seq<byte>, ghost e: iset<Step>)
      requires table.Valid() && uncached.blockSize > 0 && offset + |bytes| <= |uncached.data|
      requires StepsOk(e, uncached.blockSize)
      requires Whole(offset, uncached.blockSize) && Whole(|bytes|, uncached.blockSize)
      requires Coherent(table.Map(), uncached.data, uncached.blockSize, offset, offset + |bytes|)
      requires bytes == uncached.data[offset..offset + |bytes|]
      modifies table
      ensures table.Valid() && Coherent(table.Map(), uncached.data, uncached.blockSize, 0, 0)
      ensures Step(old(table.Map()), table.Map(), offset, offset + |bytes|, true, true) in e
    {
      var bs := uncached.blockSize;
      NothingTransferred(e, table.Map(), bs, offset, offset, true, true);
      var o, to := offset, offset + |bytes|;
      RestOfSum(offset, |bytes|, bs);
      while o < to
        invariant offset <= o <= to && Whole(o, bs) && table.Valid() && Coherent(table.Map(), uncached.data, bs, o, to)
        invariant Step(old(table.Map()), table.Map(), offset, o, true, true) in e
        modifies table
      {
        o := UpdateNext(offset, bytes, o, to, old(table.Map()), e);
      }
      NoneExcepted(table.Map(), uncached.data, bs, o);
    }

    // One round: the next block, in place.
    method UpdateNext(offset: nat, bytes: seq<byte>, o: nat, to: nat, ghost was: map<nat, Block>, ghost e: iset<Step>)
      returns (o': nat)
      requires table.Valid() && uncached.blockSize > 0 && to == offset + |bytes| <= |uncached.data| && offset <= o < to
      requires StepsOk(e, uncached.blockSize)
      requires Whole(offset, uncached.blockSize) && Whole(o, uncached.blockSize) && Whole(to, uncached.blockSize)
      requires Coherent(table.Map(), uncached.data, uncached.blockSize, o, to)
      requires bytes == uncached.data[offset..offset + |bytes|]
      requires Step(was, table.Map(), offset, o, true, true) in e
      modifies table
      ensures Step(was, table.Map(), offset, o', true, true) in e
      ensures table.Valid() && o' == o + uncached.blockSize <= to && Whole(o', uncached.blockSize)
      ensures Coherent(table.Map(), uncached.data, uncached.blockSize, o', to)
    {
      var bs := uncached.blockSize;
      ghost var m := table.Map();
      Apart(o, to, bs);
      SliceOfSlice(uncached.data, offset, |bytes|, o - offset, bs);
      Update(o, bytes[o - offset..o - offset + bs], to, e);
      RestOfSum(o, bs, bs);
      o' := o + bs;
      InTurn(e, was, m, table.Map(), bs, offset, o, o', true, true);
    }

    // One round of the loop of writeFunction.
    method Update(offset: nat, bytes: seq<byte>, ghost to: nat, ghost e: iset<Step>)
      requires table.Valid() && uncached.blockSize > 0 && offset < to && StepsOk(e, uncached.blockSize)
      requires Coherent(table.Map(), uncached.data, uncached.blockSize, offset, to)
      requires Whole(offset, uncached.blockSize) && offset + uncached.blockSize <= |uncached.data|
      requires bytes == uncached.data[offset..offset + uncached.blockSize]
      modifies table
      ensures table.Valid()
      ensures Coherent(table.Map(), uncached.data, uncached.blockSize, offset + uncached.blockSize, to)
      ensures Step(old(table.Map()), table.Map(), offset, offset + uncached.blockSize, true,
                          true) in e
    {
      var bs := uncached.blockSize;
      ghost var m := table.Map();
      var cached := table.Get(offset);
      if cached.None? {
        table.Insert(offset, bytes);
      } else {
        var b := table.slots[cached.value].value;
        KeysOk(table.Value());
        assert HereOk(table.Value(), cached.value);
        table.Change(cached.value, b.(bytes := bytes));
      }
      OneTransferred(e, m, table.Map(), bs, offset, table.Map()[offset], true);
      forall k | k in table.Map()
        ensures if offset + bs <= k < to then Whole(k, bs) && k + bs <= |uncached.data|
                else BlockOk(table.Map(), uncached.data, bs, k)
      {
        assert k in m ==> (BlockOk(m, uncached.data, bs, k) || true);
        if k != offset && offset < k < offset + bs {
          Apart(offset, k, bs);
        }
      }
    }

    // reclaimFunction
    method Reclaim(priority: nat) returns (freed: bool)
      requires Valid()
      modifies table
      ensures Valid() && (freed <==> table.count < old(table.count)) && table.count <= old(table.count)
      ensures forall k :: k in table.Map() ==> k in old(table.Map())
      ensures forall k :: k in old(table.Map()) ==>
                Outcome(table.hash, old(table.Value()), table.Map(), priority, k)
    {
      ghost var was := table.Value();
      var n := table.Reclaim(priority);
      freed := n != 0;
      forall k | k in table.Map() ensures BlockOk(table.Map(), uncached.data, uncached.blockSize, k) {
        assert BlockOk(Blocks(was), uncached.data, uncached.blockSize, k)
               && Outcome(table.hash, was, table.Map(), priority, k);
      }
    }
  }

  lemma Joined(before: seq<byte>, out: seq<byte>, data: seq<byte>, offset: nat, pos: nat, n: nat)
    requires pos + n <= |before| && offset + pos + n <= |data|
    requires before[..pos] == data[offset..offset + pos]
    requires out == Splice(before, pos, data[offset + pos..offset + pos + n])
    ensures out[..pos + n] == data[offset..offset + pos + n]
  {
    forall i | 0 <= i < pos ensures before[i] == data[offset + i] {
      assert before[..pos][i] == data[offset..offset + pos][i];
    }
  }

  lemma RestJoined(before: seq<byte>, out: seq<byte>, data: seq<byte>, offset: nat, pos: nat, n: nat, ok: bool)
    requires pos + n == |before| && offset + pos + n <= |data|
    requires before[..pos] == data[offset..offset + pos]
    requires ok ==> out == if n == 0 then before else Splice(before, pos, data[offset + pos..offset + pos + n])
    ensures ok ==> out == data[offset..offset + |before|]
  {
    if ok && n != 0 {
      Joined(before, out, data, offset, pos, n);
      assert out[..pos + n] == out;
    } else if ok {
      assert before[..pos] == before;
    }
  }

  lemma RoundFacts(offset: nat, pos: nat, misses: nat, size: nat, bs: nat)
    requires bs > 0 && Whole(offset, bs) && Whole(pos, bs) && Whole(misses, bs) && Whole(size, bs)
             && pos + misses < size
    ensures pos + misses + bs <= size && Whole(offset + pos, bs)
    ensures Whole(misses + bs, bs) && Whole(pos + misses + bs, bs)
  {
    RestOfSum(pos, misses, bs);
    Apart(pos + misses, size, bs);
    RestOfSum(offset, pos, bs);
    RestOfSum(misses, bs, bs);
    RestOfSum(pos + misses, bs, bs);
  }

  lemma NoneExcepted(m: map<nat, Block>, data: seq<byte>, size: nat, x: nat)
    requires size > 0 && Coherent(m, data, size, x, x)
    ensures Coherent(m, data, size, 0, 0)
  {
  }

  lemma SpliceSlice(s: seq<byte>, pos: nat, b: seq<byte>)
    requires pos + |b| <= |s|
    ensures Splice(s, pos, b)[pos..pos + |b|] == b
  {
  }

  // A write of whole blocks leaves the blocks outside of it as they are.
  lemma WriteLeavesOthers(m: map<nat, Block>, data: seq<byte>, size: nat, offset: nat, bytes: seq<byte>)
    requires size > 0 && Coherent(m, data, size, 0, 0) && offset + |bytes| <= |data|
    requires Whole(offset, size) && Whole(|bytes|, size)
    ensures Coherent(m, Splice(data, offset, bytes), size, offset, offset + |bytes|)
  {
    var d := Splice(data, offset, bytes);
    RestOfSum(offset, |bytes|, size);
    forall k | k in m
      ensures if offset <= k < offset + |bytes| then Whole(k, size) && k + size <= |d| else BlockOk(m, d, size, k)
    {
      assert BlockOk(m, data, size, k);
      if k < offset {
        Apart(k, offset, size);
        assert d[k..k + size] == data[k..k + size];
      } else if offset + |bytes| <= k {
        assert d[k..k + size] == data[k..k + size];
      }
    }
  }

  // ---- Byte-granular access

  // genericBlockFileFunction: whole blocks go to the device as they are, the ends through a block-sized buffer.
  // The block size is a power of two, so `x & -block_size` is x - Rest(x, block_size).
  class BlockFile {
    const device: CachedBlockDevice

    constructor (device: CachedBlockDevice)
      ensures this.device == device
    {
      this.device := device;
    }

    // The flat array that the file stands for.
    ghost function Data(): seq<byte>
      reads device, device.uncached
    {
      device.uncached.data
    }

    method ReadAt(offset: nat, size: nat) returns (ok: bool, buffer: seq<byte>)
      requires device.Valid() && offset + size <= |Data()|
      modifies device.table, device.uncached`outcomes
      ensures device.Valid() && |buffer| == size
      ensures ok ==> buffer == Data()[offset..offset + size]
      ensures false !in old(device.uncached.outcomes) ==> ok && false !in device.uncached.outcomes
    {
      buffer := seq(size, _ => 0);
      var done := 0;
      while done < size
        invariant 0 <= done <= size == |buffer| && device.Valid()
        invariant buffer[..done] == Data()[offset..offset + done]
        invariant false !in old(device.uncached.outcomes) ==> false !in device.uncached.outcomes
        modifies device.table, device.uncached`outcomes
      {
        var piece;
        ok, piece := ReadPiece(offset + done, size - done);
        if !ok {
          return;
        }
        ghost var before := buffer;
        buffer := Splice(buffer, done, piece);
        Joined(before, buffer, Data(), offset, done, |piece|);
        done := done + |piece|;
      }
      assert buffer[..size] == buffer;
      ok := true;
    }

    // One round of the loop for a read: some bytes from `offset` on, at least one and at most `left`.
    method ReadPiece(offset: nat, left: nat) returns (ok: bool, piece: seq<byte>)
      requires device.Valid() && 0 < left && offset + left <= |Data()|
      modifies device.table, device.uncached`outcomes
      ensures device.Valid()
      ensures ok ==> 0 < |piece| <= left && piece == Data()[offset..offset + |piece|]
      ensures false !in old(device.uncached.outcomes) ==> ok && false !in device.uncached.outcomes
    {
      var bs := device.uncached.blockSize;
      if Rest(offset, bs) == 0 && left > bs {
        var sizeDiff := left - Rest(left, bs);
        WholeWithoutRest(left, bs);
        ok, piece := device.Read(offset, sizeDiff);
      } else {
        var sizeDiff := Min(left, bs - Rest(offset, bs));
        var start := offset - Rest(offset, bs);
        WholeWithoutRest(offset, bs);
        Apart(start, |Data()|, bs);
        var block;
        ok, block := device.Read(start, bs);
        if ok {
          SliceOfSlice(Data(), start, bs, Rest(offset, bs), sizeDiff);
        }
        piece := block[Rest(offset, bs)..Rest(offset, bs) + sizeDiff];
      }
    }

    method WriteAt(offset: nat, buffer: seq<byte>) returns (ok: bool)
      requires device.Valid() && offset + |buffer| <= |Data()|
      modifies device.table, device.uncached
      ensures device.Valid() && |Data()| == |old(Data())|
      // After an error a prefix has been written, and nothing else has changed.
      ensures exists k: nat ::
                k <= |buffer| && (ok ==> k == |buffer|) && Data() == Splice(old(Data()), offset, buffer[..k])
      ensures false !in old(device.uncached.outcomes) ==> ok && false !in device.uncached.outcomes
    {
      ghost var was := Data();
      assert buffer[..0] == [] && Splice(was, offset, []) == was;
      var done: nat := 0;
      ok := true;
      while done < |buffer| && ok
        invariant done <= |buffer| && device.Valid() && Data() == Splice(was, offset, buffer[..done])
        invariant false !in old(device.uncached.outcomes) ==> ok && false !in device.uncached.outcomes
        decreases |buffer| - done, ok
        modifies device.table, device.uncached
      {
        ok, done := WriteNext(offset, buffer, done, was);
      }
    }

    // One round of the loop for a write, in terms of the whole.
    method WriteNext(offset: nat, buffer: seq<byte>, done: nat, ghost was: seq<byte>) returns (ok: bool, done': nat)
      requires device.Valid() && done < |buffer| && offset + |buffer| <= |was|
      requires Data() == Splice(was, offset, buffer[..done])
      modifies device.table, device.uncached
      ensures device.Valid() && done' <= |buffer| && Data() == Splice(was, offset, buffer[..done'])
      ensures if ok then done < done' else done' == done
      ensures false !in old(device.uncached.outcomes) ==> ok && false !in device.uncached.outcomes
    {
      var n;
      ok, n := WritePiece(offset + done, buffer[done..]);
      done' := done;
      if ok {
        assert buffer[done..][..n] == buffer[done..done + n];
        SpliceMore(was, offset, buffer, done, n);
        done' := done + n;
      }
    }

    // One round of the loop for a write: some bytes of `buffer`, at least one.
    method WritePiece(offset: nat, buffer: seq<byte>) returns (ok: bool, n: nat)
      requires device.Valid() && buffer != [] && offset + |buffer| <= |Data()|
      modifies device.table, device.uncached
      ensures device.Valid() && 0 < n <= |buffer|
      ensures Data() == if ok then Splice(old(Data()), offset, buffer[..n]) else old(Data())
      ensures false !in old(device.uncached.outcomes) ==> ok && false !in device.uncached.outcomes
    {
      var bs := device.uncached.blockSize;
      if Rest(offset, bs) == 0 && |buffer| > bs {
        n := |buffer| - Rest(|buffer|, bs);
        WholeWithoutRest(|buffer|, bs);
        ok := device.Write(offset, buffer[..n]);
      } else {
        ok, n := PatchPiece(offset, buffer);
      }
    }

    // Part of a block: it is read, changed and written back.
    method PatchPiece(offset: nat, buffer: seq<byte>) returns (ok: bool, n: nat)
      requires device.Valid() && buffer != [] && offset + |buffer| <= |Data()|
      modifies device.table, device.uncached
      ensures device.Valid() && 0 < n <= |buffer|
      ensures Data() == if ok then Splice(old(Data()), offset, buffer[..n]) else old(Data())
      ensures false !in old(device.uncached.outcomes) ==> ok && false !in device.uncached.outcomes
    {
      var bs := device.uncached.blockSize;
      var r := Rest(offset, bs);
      n := Min(|buffer|, bs - r);
      WholeWithoutRest(offset, bs);
      Apart(offset - r, |Data()|, bs);
      ok := PatchAt(offset - r, r, buffer[..n]);
    }

    method PatchAt(start: nat, r: nat, piece: seq<byte>) returns (ok: bool)
      requires device.Valid() && Whole(start, device.uncached.blockSize)
               && start + device.uncached.blockSize <= |Data()|
      requires r + |piece| <= device.uncached.blockSize
      modifies device.table, device.uncached
      ensures device.Valid() && Data() == if ok then Splice(old(Data()), start + r, piece) else old(Data())
      ensures false !in old(device.uncached.outcomes) ==> ok && false !in device.uncached.outcomes
    {
      var bs := device.uncached.blockSize;
      RestOfSum(bs, 0, bs);
      var block;
      ok, block := device.Read(start, bs);
      if ok {
        PatchBlock(Data(), start, bs, r, piece);
        ok := device.Write(start, Splice(block, r, piece));
      }
    }
  }

  // Reading a block, changing some of it and writing it back changes only that.
  lemma PatchBlock(data: seq<byte>, start: nat, size: nat, r: nat, piece: seq<byte>)
    requires start + size <= |data| && r + |piece| <= size
    ensures Splice(data, start, Splice(data[start..start + size], r, piece)) == Splice(data, start + r, piece)
  {
  }

  lemma SpliceMore(s: seq<byte>, pos: nat, b: seq<byte>, done: nat, n: nat)
    requires pos + |b| <= |s| && done + n <= |b|
    ensures Splice(Splice(s, pos, b[..done]), pos + done, b[done..done + n]) == Splice(s, pos, b[..done + n])
  {
    SpliceTwice(s, pos, b[..done], b[done..done + n]);
    assert b[..done] + b[done..done + n] == b[..done + n];
  }

  // ---- Whole runs

  datatype Op = ReadOp(offset: nat, size: nat) | WriteOp(offset: nat, bytes: seq<byte>) | ReclaimOp(priority: nat)

  predicate InRange(op: Op, size: nat) {
    match op
    case ReadOp(offset, n) => offset + n <= size
    case WriteOp(offset, bytes) => offset + |bytes| <= size
    case ReclaimOp(_) => true
  }

  // A flat byte array, and what has been read from it.
  datatype Flat = Flat(data: seq<byte>, seen: seq<seq<byte>>)

  function FlatStep(f: Flat, op: Op): (g: Flat)
    requires InRange(op, |f.data|)
    ensures |g.data| == |f.data|
  {
    match op
    case ReadOp(offset, n) => f.(seen := f.seen + [f.data[offset..offset + n]])
    case WriteOp(offset, bytes) => f.(data := Splice(f.data, offset, bytes))
    case ReclaimOp(_) => f
  }

  function FlatRun(data: seq<byte>, ops: seq<Op>): (f: Flat)
    requires forall op :: op in ops ==> InRange(op, |data|)
    ensures |f.data| == |data|
  {
    if ops == [] then Flat(data, []) else FlatStep(FlatRun(data, ops[..|ops| - 1]), ops[|ops| - 1])
  }

  // What an operation that fails leaves behind: nothing, or a prefix of what was to be written.
  ghost predicate AfterFailure(data: seq<byte>, op: Op, now: seq<byte>)
    requires InRange(op, |data|)
  {
    match op
    case ReadOp(_, _) => now == data
    case WriteOp(offset, bytes) => exists k: nat :: k <= |bytes| && now == Splice(data, offset, bytes[..k])
    case ReclaimOp(_) => false
  }

  // One operation.
  method Serve(file: BlockFile, op: Op, seen0: seq<seq<byte>>) returns (ok: bool, seen: seq<seq<byte>>)
    requires file.device.Valid() && InRange(op, |file.Data()|)
    modifies file.device.table, file.device.uncached
    ensures file.device.Valid()
    ensures false !in old(file.device.uncached.outcomes) ==> ok && false !in file.device.uncached.outcomes
    ensures ok ==> FlatStep(Flat(old(file.Data()), seen0), op) == Flat(file.Data(), seen)
    ensures !ok ==> seen == seen0 && AfterFailure(old(file.Data()), op, file.Data())
  {
    ok, seen := true, seen0;
    match op {
      case ReadOp(offset, size) =>
        var bytes;
        ok, bytes := file.ReadAt(offset, size);
        seen := if ok then seen + [bytes] else seen;
      case WriteOp(offset, bytes) =>
        assert bytes[..|bytes|] == bytes;
        ok := file.WriteAt(offset, bytes);
      case ReclaimOp(priority) =>
        var _ := file.device.Reclaim(priority);
    }
  }

  // Up to the first failure of the device the file over the cache is the flat array, whatever is cached or reclaimed
  // when. Without failures the run goes to its end.
  method Run(file: BlockFile, ops: seq<Op>) returns (seen: seq<seq<byte>>, n: nat)
    requires file.device.Valid()
    requires forall op :: op in ops ==> InRange(op, |file.Data()|)
    modifies file.device.table, file.device.uncached
    ensures file.device.Valid() && n <= |ops| && (false !in old(file.device.uncached.outcomes) ==> n == |ops|)
    ensures var f := FlatRun(old(file.Data()), ops[..n]);
      && seen == f.seen
      && if n == |ops| then file.Data() == f.data
         else InRange(ops[n], |f.data|) && AfterFailure(f.data, ops[n], file.Data())
  {
    seen, n := [], 0;
    ghost var was := file.Data();
    while n < |ops|
      invariant file.device.Valid() && n <= |ops| && FlatRun(was, ops[..n]) == Flat(file.Data(), seen)
      invariant false !in old(file.device.uncached.outcomes) ==> false !in file.device.uncached.outcomes
    {
      assert ops[..n + 1][..n] == ops[..n] && ops[n] in ops;
      assert |FlatRun(was, ops[..n]).data| == |was|;
      var ok;
      ok, seen := Serve(file, ops[n], seen);
      if !ok {
        return;
      }
      n := n + 1;
    }
    assert ops[..n] == ops;
  }
}
